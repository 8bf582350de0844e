# enum_convert: annotation parsing and mapping resolution

This project models the core of the `EnumFrom` and `EnumInto` derive macros of
the `enum_convert` crate. Both macros generate `From` impls between enums.

- `#[derive(EnumFrom)]` goes on the target enum. It declares its source enums with
  `#[enum_from(Source1, Source2)]`. Each target variant names the source variants
  it converts from.
- `#[derive(EnumInto)]` goes on the source enum. It declares its target enums with
  `#[enum_into(Target1, Target2)]`. Each source variant is paired with one
  variant of every target enum.

Each macro runs in three stages, and all three are modelled.

1. **Parser.** It turns the attributes of the enum, its variants and their fields
   into annotation records. No annotation is checked against another.
   - Container level: a list of paired enum names.
   - Variant level: `Nothing`, `EnumOnly(E)` or `EnumVariant(E, V)`.
   - Field level: `E::V.field`.
2. **Resolver.** This is `TryFrom<Parsed…>` together with `get_fields_mapping` and
   `get_source_enum_and_variant`. It checks the annotations against each other
   and builds, for every declared paired enum, a table from variant to variant
   mapping. Each mapping carries a field-rename table. It applies these rules:
   - one declared source enum is the default for a bare `#[enum_from]`;
   - a paired variant defaults to the annotated variant's own name;
   - a field with no annotation for a pairing maps to itself.

   It reports these errors: an empty container list, an ambiguous bare marker,
   an undeclared paired enum, and two annotations of one field naming the same
   pairing.
3. **Emission.** `generate`, `generate_from_impl` and `generate_match_arm` are
   modelled as abstract arm records, not as token streams. An arm holds the
   source variant, the target variant and its field shape: unit, a tuple arity,
   or (target field, source field) pairs.

Modules, one per file:

| module | file | models |
|---|---|---|
| `Results` | results.dfy | error kinds, `Option`, and `Result` with `:-` |
| `Syntax` | syntax.dfy | abstract attributes, variants and fields, plus the combinators every parser is built from: `TryMap`, `ParseArgs` (punctuated lists), `CollectAttributes` (filter by name, parse, flatten) and `ToMap` (hash-map collection, later key wins) |
| `Annotations` | annotations.dfy | the annotation records, and the container- and variant-level parsers, which are the same in both macros |
| `FieldMapping` | field_mapping.dfy | `get_fields_mapping`, which is the same in both macros, and the arm records |
| `EnumFromParser`, `EnumFromGenerator` | enum_from_parser.dfy, enum_from_generator.dfy | `EnumFrom` |
| `EnumIntoParser`, `EnumIntoGenerator` | enum_into_parser.dfy, enum_into_generator.dfy | `EnumInto` |

Each resolver is a pure recursive fold over the parsed variants. Its contracts
are stated against **reference definitions** that say what the annotations
mean, independently of the fold:

- `EnumFromGenerator`: `Names`, `Resolvable`, `Failure` and `ContributedBy`.
- `EnumIntoGenerator`: `PairsWith`, `Resolvable`, `Failure` and `ContributedBy`.
- `FieldMapping`: `Unambiguous` and `PairedField`.

Where the code does something the attribute syntax does not suggest, the model
follows the code:

- **`EnumFrom` default source.** The default exists only when the container list
  has exactly one element. `#[enum_from(A, A)]` therefore has no default, and a
  bare marker then fails.
- **`EnumInto` pairings.** When two variant annotations name the same target enum,
  the later one wins. The resolver collects them into a hash map.
- **`EnumInto` error order.** An undeclared target enum is reported only after every
  declared target enum has been paired. Duplicate field mappings therefore win
  over undeclared enums.
- **`EnumInto` field selectors.** Only an identifier may follow the `.`. A position
  such as `.0` is a syntax error, even though the `EnumFrom` grammar accepts it.
- **`EnumFrom` field table.** It is keyed by `FieldRef`: a name for a named field,
  a position for a positional one. src/enum_from/generator.rs declares name-keyed
  tables, so the shared `get_fields_mapping` is generic over the key.
- **`EnumFrom` duplicate pairings.** Two target variants may name the same source
  variant. The mapping resolved later then replaces the earlier one. The source
  visits variants in hash-map order, so which one survives is unspecified there.
  The model visits variants in declaration order.

## Model

| member | source | states |
|---|---|---|
| Syntax.TryMap | src/enum_from/parser.rs:185-191 | collecting results succeeds iff every element succeeds; the values come back in order; on failure, the error is that of the first failing element |
| Syntax.ParseArgs | src/enum_from/parser.rs:210-219 | a punctuated list is accepted iff it is non-empty, has no trailing comma and every element parses; a lone comma is a syntax error, and an empty or trailing list is malformed; when an element fails, the error is that of the first failing element |
| Syntax.Named | src/enum_from/parser.rs:145-147 | keeps exactly the attributes whose path is the macro's name |
| Syntax.NamedSingle | src/enum_from/parser.rs:145-147 | a single attribute is kept iff it is named for the macro, and nothing comes from no attributes |
| Syntax.NamedAppend | src/enum_from/parser.rs:145-147 | the filter distributes over concatenation, so it keeps the attributes in their order and with their repetitions |
| Syntax.CollectAttributes | src/enum_from/parser.rs:145-179 | gathering annotations succeeds iff every attribute carrying the macro's name parses, and a failure is the error of one such attribute |
| Syntax.CollectSingle | src/enum_from/parser.rs:156-171 | one attribute named for the macro yields exactly its own list |
| Syntax.CollectIgnoresOtherAttributes | src/enum_from/parser.rs:147 | attributes not named for the macro have no effect on the result |
| Syntax.CollectAppend | src/enum_from/parser.rs:175-178 | lists of consecutive attributes are concatenated in attribute order, and a failure in an earlier attribute wins |
| Syntax.ToMap | src/enum_from/parser.rs:246-248 | collecting pairs into a hash map: every key is present, nothing else is, and a key's value comes from its last occurrence |
| Annotations.ParseContainerItem | src/enum_from/parser.rs:158-160 | a container list element is accepted iff it is a single identifier, which it yields |
| Annotations.ParseVariantAnnotation | src/enum_from/parser.rs:68-90 | one segment gives `EnumOnly(seg0)`, two give `EnumVariant(seg0, seg1)`, more are a path-length error, and trailing tokens are a syntax error; an empty path is a syntax error too, so a path of at most two segments can only fail with a syntax error |
| Annotations.ParseContainerMeta | src/enum_from/parser.rs:156-173 | a container attribute must be a non-empty list of identifiers without a trailing comma, and yields them in order; the bare and `name = value` forms are malformed; a failing element or a lone comma gives a syntax error, while an empty or trailing list of good elements is malformed |
| Annotations.ExtractContainerAnnotations | src/enum_from/parser.rs:142-180 | the declared enums are collected from every container attribute named for the macro, and collection succeeds iff each of them parses (the same function serves src/enum_into/parser.rs:123-161) |
| Annotations.ParseVariantMeta | src/enum_from/parser.rs:207-222 | a bare variant attribute gives exactly `[Nothing]`; a list must be non-empty without a trailing comma and never yields `Nothing`; `name = value` is malformed; a failing list reports the first failing annotation's error, or, when all parse, a syntax error for a lone comma and malformed otherwise |
| Annotations.ExtractVariantLevelAnnotations | src/enum_from/parser.rs:196-227 | succeeds iff every variant attribute named for the macro parses |
| Annotations.VariantAnnotationRoundTrip | src/enum_from/parser.rs:68-90 | parsing the rendering of an explicit variant annotation gives it back |
| Annotations.ContainerRoundTrip | src/enum_from/parser.rs:142-180 | any non-empty list of enum names survives rendering as one container attribute and parsing |
| Annotations.VariantRoundTrip | src/enum_from/parser.rs:195-227 | a lone `Nothing`, or any non-empty list of explicit annotations, survives rendering and parsing |
| FieldMapping.Matching | src/enum_from/generator.rs:218-225 | the filtered annotations are no longer than the input and all name the pairing |
| FieldMapping.MatchingEmpty | src/enum_from/generator.rs:218-227 | no annotation is kept iff none names the pairing, which is the identity case |
| FieldMapping.MatchingAtMostOne | src/enum_from/generator.rs:218-233 | at most one annotation is kept iff no two annotations name the pairing |
| FieldMapping.MatchingSingle | src/enum_from/generator.rs:226-228 | when one annotation is kept, it is the one naming the pairing |
| FieldMapping.GetFieldsMapping | src/enum_from/generator.rs:210-240 | succeeds iff no field has two annotations for the pairing, otherwise reports a duplicate mapping; the keys are exactly the annotated table's keys; an unannotated field maps to itself, and an annotated one to its annotation's field (src/enum_into/generator.rs:222-252 is the same function) |
| FieldMapping.FieldsMappingFacts | src/enum_from/generator.rs:218-233 | the filter-and-count of the source agrees with the quantified reference definition for 0, 1 and 2 or more matches |
| FieldMapping.UnannotatedIsIdentity | src/enum_from/generator.rs:226-227 | a variant whose fields carry no annotation for the pairing gets the identity table |
| FieldMapping.RenamedFollowsAnnotations | src/enum_from/generator.rs:118-121 | looking a field up with itself as fallback gives the field its annotations pair it with, or itself when none does |
| EnumFromParser.ParseFieldAnnotation | src/enum_from/parser.rs:107-139 | `E::V.field` needs exactly two segments, then a `.`, then an identifier (a name) or an integer literal below 2^64 (a position); yields (seg0, seg1, field); every other input gives its own error kind |
| EnumFromParser.ParseFieldMeta | src/enum_from/parser.rs:267-281 | a field attribute must be a non-empty list of field annotations without a trailing comma; the bare and `name = value` forms are malformed; a failing list reports the first failing annotation's error, or, when all parse, a syntax error for a lone comma and malformed otherwise |
| EnumFromParser.ExtractFieldAnnotations | src/enum_from/parser.rs:256-291 | a field's annotations parse iff each of its attributes named for the macro parses |
| EnumFromParser.FieldAnnotationRoundTrip | src/enum_from/parser.rs:107-139 | parsing the rendering `E::V.field` of a field annotation gives it back, for a name or for a position below 2^64 |
| EnumFromParser.FieldRoundTrip | src/enum_from/parser.rs:256-291 | any non-empty list of field annotations survives rendering as one field attribute and parsing |
| EnumFromParser.FieldKeysDistinct | src/enum_from/parser.rs:233-244 | with distinct field names, the keys of two different fields differ |
| EnumFromParser.FieldKeys | src/enum_from/parser.rs:229-245 | field i is keyed by its name when it has one, otherwise by its position i |
| EnumFromParser.ExtractFieldsAnnotations | src/enum_from/parser.rs:229-248 | the field table succeeds iff every field's annotations parse; it has one entry per field, annotated or not, and nothing else; with distinct names each entry holds that field's annotations |
| EnumFromParser.FieldTable | src/enum_from/parser.rs:229-248 | the table built from the keyed fields holds every field key, only field keys, and, with distinct names, each field's own value |
| EnumFromParser.ExtractVariantAnnotations | src/enum_from/parser.rs:195-254 | a variant parses iff its variant-level and field-level annotations both parse, and the result holds both |
| EnumFromParser.ParseEnumFrom | src/enum_from/parser.rs:22-43 | a struct or union is rejected; otherwise parsing succeeds iff the container and every variant parse, and the result keeps the enum's name and each variant with its annotations |
| EnumIntoParser.ParseFieldAnnotation | src/enum_into/parser.rs:101-121 | `E::V.field` is accepted iff there are exactly two segments followed by `.` and an identifier; yields (seg0, seg1, field); other segment counts are path-length errors and anything else is a syntax error |
| EnumIntoParser.ParseFieldMeta | src/enum_into/parser.rs:241-255 | a field attribute must be a non-empty list without a trailing comma; the bare and `name = value` forms are malformed; a failing list reports the first failing annotation's error, or, when all parse, a syntax error for a lone comma and malformed otherwise |
| EnumIntoParser.ExtractFieldAnnotations | src/enum_into/parser.rs:230-265 | a field's annotations parse iff each of its attributes named for the macro parses |
| EnumIntoParser.FieldAnnotationRoundTrip | src/enum_into/parser.rs:101-121 | parsing the rendering `E::V.field` of a field annotation gives it back |
| EnumIntoParser.FieldRoundTrip | src/enum_into/parser.rs:230-265 | any non-empty list of field annotations survives rendering as one field attribute and parsing |
| EnumIntoParser.NamedFields | src/enum_into/parser.rs:211-219 | keeps exactly the fields that have a name |
| EnumIntoParser.NamedFieldsSingle | src/enum_into/parser.rs:211-219 | a single field is kept iff it has a name, and nothing comes from no fields |
| EnumIntoParser.NamedFieldsAppend | src/enum_into/parser.rs:211-219 | the filter distributes over concatenation, so named fields keep their order and repetitions |
| EnumIntoParser.FieldNames | src/enum_into/parser.rs:215-217 | the keys are the names of the named fields, in order |
| EnumIntoParser.ExtractFieldsAnnotations | src/enum_into/parser.rs:211-222 | the field table succeeds iff every named field's annotations parse, so the attributes of positional fields are never read; it has one entry per named field and nothing else; with distinct names each entry holds that field's annotations |
| EnumIntoParser.NamedAnnotations | src/enum_into/parser.rs:214-220 | parsing the named fields succeeds iff it succeeds on every named field of the variant |
| EnumIntoParser.NamedValues | src/enum_into/parser.rs:211-222 | with distinct names, each named field's entry holds the value computed for that field |
| EnumIntoParser.NamedTable | src/enum_into/parser.rs:211-222 | the table has exactly one key per named field |
| EnumIntoParser.ExtractVariantAnnotations | src/enum_into/parser.rs:176-228 | a variant parses iff its variant-level annotations and its named fields' annotations parse, and the result holds both |
| EnumIntoParser.ParseEnumInto | src/enum_into/parser.rs:22-43 | a struct or union is rejected; otherwise parsing succeeds iff the container and every variant parse, and the result keeps the enum's name and each variant with its annotations |
| EnumFromGenerator.SingleSource | src/enum_from/generator.rs:147-154 | there is a default source enum iff exactly one is declared, and it is that one |
| EnumFromGenerator.GetSourceEnumAndVariant | src/enum_from/generator.rs:243-272 | resolution fails, as an ambiguous source, iff the annotation is a bare marker and there is no default source |
| EnumFromGenerator.SourcePairing | src/enum_from/generator.rs:147-174 | with the default taken from the declared list, a bare marker fails iff not exactly one source is declared, and every pairing found is the one the annotation means |
| EnumFromGenerator.ResolveAnnotation | src/enum_from/generator.rs:169-197 | one annotation is accepted iff it names a declared source without ambiguity and no field maps twice for the pairing; the error kind follows the reference diagnosis; on success only the named entry changes, to this variant's mapping |
| EnumFromGenerator.ResolveVariantAnnotations | src/enum_from/generator.rs:169-198 | a variant's annotations resolve iff each one does; a failure is the diagnosis of the first faulty annotation; the declared source enums stay the same |
| EnumFromGenerator.VariantAnnotationsEffect | src/enum_from/generator.rs:185-197 | after one variant, an entry exists iff it existed before or an annotation names it; a named entry holds this variant's mapping; every other entry is unchanged |
| EnumFromGenerator.ResolveVariants | src/enum_from/generator.rs:168-200 | the loop succeeds iff every annotation of every variant is resolvable; a failure is the diagnosis of the first faulty annotation of some variant; every visited variant is recorded under its name |
| EnumFromGenerator.VariantsEffect | src/enum_from/generator.rs:168-200 | entries are never dropped, and every pairing named by some annotation has an entry |
| EnumFromGenerator.VariantsSound | src/enum_from/generator.rs:168-200 | every entry was there before or was contributed by a variant whose annotation names it, with that variant's field table |
| EnumFromGenerator.VariantsRecorded | src/enum_from/generator.rs:199 | the target-variants table maps each name to a variant of that name that was there before or was visited |
| EnumFromGenerator.TryFrom | src/enum_from/generator.rs:137-208 | an empty container list is an error; otherwise the resolver succeeds iff all annotations are resolvable, reports otherwise the diagnosis of the first faulty annotation of some variant, declares one (possibly empty) table per declared source, and records every target variant |
| EnumFromGenerator.TryFromMappings | src/enum_from/generator.rs:158-200 | every pairing an annotation names has an entry; every entry is the mapping of a variant naming it; every mapping's target variant can be looked up; a variant without annotations contributes nothing |
| EnumFromGenerator.GenerateMatchArm | src/enum_from/generator.rs:80-135 | the arm's shape follows the target variant; a struct target lists each of its fields once, in order, read from its table entry or from the same name |
| EnumFromGenerator.GenerateFromImpl | src/enum_from/generator.rs:46-78 | every source variant in the table gets the arm built from its own mapping and its target variant, every arm is such an arm, and no source variant has two arms |
| EnumFromGenerator.Generate | src/enum_from/generator.rs:28-44 | one impl per declared source enum; its arms are exactly the arms built from that enum's recorded mappings, each with the target variant its mapping names |
| EnumFromGenerator.TryFromEmittable | src/enum_from/generator.rs:56-58 | after a successful resolution the target-variant lookup in emission cannot fail, and one impl is generated per declared source |
| EnumFromGenerator.ArmFollowsAnnotations | src/enum_from/generator.rs:46-127 | every arm generated for a source enum is the arm built from the mapping of a target variant whose annotation names that source variant, and each struct field is read from the field its annotations pair it with, or from itself |
| EnumFromGenerator.ArmsCoverAnnotations | src/enum_from/generator.rs:28-78 | every source variant an annotation names gets an arm in the impl for its source enum; when several target variants name it, ArmFollowsAnnotations says the arm uses the mapping of one of them |
| EnumIntoGenerator.TargetVariantsPairing | src/enum_into/generator.rs:164-179 | the explicit pairings hold exactly the target enums some annotation names, each paired with the variant its last such annotation gives (the own name for `EnumOnly`); `Nothing` is dropped |
| EnumIntoGenerator.TargetVariantsKeys | src/enum_into/generator.rs:164-179 | a target enum has an explicit pairing iff some annotation names it |
| EnumIntoGenerator.PairedFollowsAnnotations | src/enum_into/generator.rs:180-184 | the computed target variant (explicit, or the same name) is the one and only variant the annotations pair with |
| EnumIntoGenerator.Push | src/enum_into/generator.rs:192-200 | appending a mapping extends the list of its target variant by exactly that mapping and leaves the other lists alone |
| EnumIntoGenerator.Distinct | src/enum_into/generator.rs:158-161 | the declared target enums as hash-map keys: the same elements, each once |
| EnumIntoGenerator.ResolveTargets | src/enum_into/generator.rs:180-201 | pairing a variant with the given target enums succeeds iff none has a duplicate field mapping for its paired variant, and otherwise reports one |
| EnumIntoGenerator.TargetsEffect | src/enum_into/generator.rs:180-201 | each listed target enum gets exactly this variant's mapping appended under its paired variant; the others are unchanged |
| EnumIntoGenerator.ResolveVariant | src/enum_into/generator.rs:163-211 | resolving one source variant keeps the declared target enums; when it succeeds and what it appends are stated by VariantOutcome and VariantEffect |
| EnumIntoGenerator.VariantOutcome | src/enum_into/generator.rs:180-211 | one source variant resolves iff it is resolvable by the reference definition, and otherwise fails with the reference diagnosis: duplicate mapping before undeclared enum |
| EnumIntoGenerator.VariantChecks | src/enum_into/generator.rs:186-211 | the two checks `try_from` makes, in order: no duplicate field mapping in any declared target, then no undeclared target enum |
| EnumIntoGenerator.DeclaredTargets | src/enum_into/generator.rs:204-211 | nothing is left over after removing the declared target enums iff every explicit annotation names a declared one |
| EnumIntoGenerator.ResolvableChecks | src/enum_into/generator.rs:164-190 | the reference definitions reduce to the same two checks on the computed pairing |
| EnumIntoGenerator.VariantEffect | src/enum_into/generator.rs:180-201 | every declared target enum gets exactly this variant's mapping, appended to the list of its paired target variant |
| EnumIntoGenerator.ResolveVariants | src/enum_into/generator.rs:163-212 | the outer loop keeps the declared target enums; when it succeeds is stated by VariantsOutcome, and what it records by VariantsCover, VariantsSound and VariantsRecorded |
| EnumIntoGenerator.VariantsOutcome | src/enum_into/generator.rs:163-212 | the loop succeeds iff every source variant is resolvable, and otherwise fails with the diagnosis of an unresolvable one |
| EnumIntoGenerator.VariantGrows | src/enum_into/generator.rs:192-200 | one variant only appends to existing lists |
| EnumIntoGenerator.VariantsGrow | src/enum_into/generator.rs:163-212 | the loop only appends to existing lists |
| EnumIntoGenerator.VariantsCover | src/enum_into/generator.rs:180-201 | every source variant's mapping ends up, in every declared target enum, in the list of the variant it pairs with |
| EnumIntoGenerator.VariantSound | src/enum_into/generator.rs:180-201 | one variant leaves a list unchanged, or appends its own mapping when it pairs with that list's target variant |
| EnumIntoGenerator.VariantsSound | src/enum_into/generator.rs:163-212 | everything the loop appends to a list is the mapping of a variant paired with that list's target variant |
| EnumIntoGenerator.VariantsRecorded | src/enum_into/generator.rs:202 | the source-variants table holds exactly the earlier and the visited names, each mapped to a variant of that name |
| EnumIntoGenerator.PushOnce | src/enum_into/generator.rs:192-200 | appending a new source variant keeps every source variant at most once in the target enum |
| EnumIntoGenerator.VariantOnce | src/enum_into/generator.rs:180-201 | resolving a variant whose name is new keeps every target enum free of repetitions |
| EnumIntoGenerator.VariantsOnce | src/enum_into/generator.rs:163-212 | with distinct variant names, the loop records no source variant twice in a target enum |
| EnumIntoGenerator.TryFrom | src/enum_into/generator.rs:139-220 | an empty container list is an error; on success the source enum is kept and there is one table per declared target enum; when it succeeds is stated by TryFromOutcome |
| EnumIntoGenerator.Initial | src/enum_into/generator.rs:158-161 | every declared target enum starts with no mapping |
| EnumIntoGenerator.TryFromOutcome | src/enum_into/generator.rs:149-211 | `try_from` succeeds iff a target enum is declared and every source variant is resolvable; otherwise it reports the diagnosis of an unresolvable one; on success every source variant is recorded under its name |
| EnumIntoGenerator.TryFromCover | src/enum_into/generator.rs:180-201 | in every declared target enum, each source variant's mapping sits in the list of the target variant its annotations pair it with |
| EnumIntoGenerator.TryFromSound | src/enum_into/generator.rs:180-201 | every recorded mapping is that of a source variant whose annotations pair it with the target variant it is listed under |
| EnumIntoGenerator.TryFromRecorded | src/enum_into/generator.rs:196-202 | every recorded source variant can be looked up in the source-variants table, so emission's lookup cannot fail, and that table holds the parsed variants under their names |
| EnumIntoGenerator.TryFromOnce | src/enum_into/generator.rs:180-201 | with distinct variant names, no source variant is recorded twice in a target enum |
| EnumIntoGenerator.TryFromListed | src/enum_into/generator.rs:180-201 | every source variant is recorded in every declared target enum, so several may share a target variant |
| EnumIntoGenerator.GenerateMatchArm | src/enum_into/generator.rs:82-137 | the arm's shape follows the source variant; a tuple passes field i to position i; a struct source writes each of its fields once, in order, to its table entry or to the same name |
| EnumIntoGenerator.GenerateFromImpl | src/enum_into/generator.rs:46-80 | every arm converts a source variant that can be looked up; which arms there are is stated by ImplConverts, ImplFromMappings and ImplOnce |
| EnumIntoGenerator.ImplConverts | src/enum_into/generator.rs:52-69 | every recorded mapping has the arm built from that mapping and its source variant, so it converts its source variant into its target variant |
| EnumIntoGenerator.ImplFromMappings | src/enum_into/generator.rs:52-69 | every arm is the arm built from some recorded mapping and the source variant it names |
| EnumIntoGenerator.ImplOnce | src/enum_into/generator.rs:52-69 | when no source variant is recorded twice, no two arms convert the same source variant |
| EnumIntoGenerator.Generate | src/enum_into/generator.rs:28-44 | one impl per declared target enum, whose arms convert recorded source variants; which arms those are is stated by ArmFollowsAnnotations and ArmsCoverAnnotations |
| EnumIntoGenerator.TryFromEmittable | src/enum_into/generator.rs:57-59 | after a successful resolution the source-variant lookup in emission cannot fail, and one impl is generated per declared target |
| EnumIntoGenerator.GeneratedMatchIsExhaustive | src/enum_into/generator.rs:12-13 | the resolver's promise that generation cannot fail, strengthened: each generated `match` converts exactly the parsed source variants, one arm each |
| EnumIntoGenerator.GeneratedArmsFromVariants | src/enum_into/generator.rs:52-69 | every arm converts a parsed source variant |
| EnumIntoGenerator.GeneratedArmsCover | src/enum_into/generator.rs:52-69 | every parsed source variant has an arm in every impl |
| EnumIntoGenerator.GeneratedArmsDisjoint | src/enum_into/generator.rs:52-69 | with distinct names, no two arms of an impl convert the same source variant |
| EnumIntoGenerator.ArmFollowsAnnotations | src/enum_into/generator.rs:46-129 | every arm generated for a target enum is the arm built from the mapping of a source variant whose annotations pair it with the arm's target variant, and writes each struct field to the field its annotations name, or to itself |
| EnumIntoGenerator.ArmsCoverAnnotations | src/enum_into/generator.rs:28-69 | every source variant gets, in the impl for each declared target enum, the arm built from its mapping for the variant its annotations pair it with |

## Left out

- Tokenisation, `syn` parsing, `Span`s and message text. An attribute is given as
  its abstract form: its path and `Meta`, with a list's elements already split at
  commas and a flag for a trailing comma. Errors are modelled by kind only.
- `quote!` output. Emission yields arm records.
- `generate` and `generate_from_impl` return a set of arms. Arm order within a
  `match` comes from hash-map order in the source, so it is not modelled.
- Hash-map iteration order. The resolvers visit variants in declaration order, and
  target enums in order of first declaration. No contract depends on that order
  except in two places. When several variants have faulty annotations, the
  contracts state only that the error is the first faulty annotation of some
  variant. For `EnumFrom` duplicate pairings, which mapping survives is described
  above.
- Duplicate variant or field names. The compiler rejects these before the macro's
  output is used.
  - EnumFromParser.ExtractFieldsAnnotations: states each entry's value only when
    field names are distinct. Otherwise the later field wins, as ToMap states.
  - EnumIntoParser.ExtractFieldsAnnotations: the same.
  - EnumIntoGenerator.TryFromOnce, EnumIntoGenerator.GeneratedMatchIsExhaustive,
    EnumFromGenerator.ArmFollowsAnnotations, EnumIntoGenerator.ArmFollowsAnnotations
    and EnumIntoGenerator.ArmsCoverAnnotations: these assume distinct variant names.
- src/lib.rs, src/enum_from.rs, src/enum_into.rs and src/idents.rs. These are the
  proc-macro entry points, the glue from parse to `try_from` to `generate` to
  `into_compile_error`, and identifier newtypes whose equality is string
  equality. Identifiers are `string`s here.
- Checks made by rustc on the generated code: unknown variants or fields, and
  tuple/struct shape mismatches. The macros do not make these checks.
- EnumFromParser.ParseFieldAnnotation: an integer literal is given as its value.
  Literal syntax (suffixes, underscores) is not modelled; only the `usize` bound
  of `base10_parse` on a 64-bit target is.

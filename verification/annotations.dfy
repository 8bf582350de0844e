/** The annotation records both macros parse into, and the parsers for the
    two annotation levels whose grammar is the same in `EnumFrom` and
    `EnumInto`: the container level (the list of paired enums) and the
    variant level (`#[name]`, `#[name(Enum)]`, `#[name(Enum::Variant)]`).
    Both parsers are purely syntactic; no annotation is checked against
    another. */
module Annotations {
  import opened Results
  import opened Syntax

  /** A field of a variant: by name for named fields, by declaration index
      for positional ones. */
  datatype FieldRef = Name(name: string) | Pos(pos: nat)

  /** One variant-level annotation: the bare marker, a paired enum alone (the
      paired variant has the annotated variant's own name), or an explicit
      paired enum and variant. */
  datatype VariantAnnotation =
    | Nothing
    | EnumOnly(enumName: string)
    | EnumVariant(enumName: string, variant: string)

  /** One field-level annotation `Enum::Variant.field`. */
  datatype FieldAnnotation<F> = FieldAnnotation(enumName: string, variant: string, field: F)

  /** Everything parsed from one variant: its variant-level annotations in
      order, and for each field key the field's annotations in order. */
  datatype VariantAnnotations<K> = VariantAnnotations(
    variantAnnotations: seq<VariantAnnotation>,
    fieldsAnnotations: map<K, seq<FieldAnnotation<K>>>)

  datatype AnnotatedVariant<K> = AnnotatedVariant(variant: Variant, annotations: VariantAnnotations<K>)

  /** One element of a container-level list must be a single identifier. */
  function ParseContainerItem(item: Item): (r: Result<string>)
    ensures r.Ok? <==> |item.path| == 1 && item.member.None?
    ensures r.Ok? ==> r.value == item.path[0]
    ensures r.Err? ==> r.error == SyntaxError
  {
    if |item.path| == 1 && item.member.None? then Ok(item.path[0]) else Err(SyntaxError)
  }

  /** One element of a variant-level list: a path of one segment names a
      paired enum, a path of two segments a paired enum and variant. */
  function ParseVariantAnnotation(item: Item): (r: Result<VariantAnnotation>)
    ensures r.Ok? <==> |item.path| in {1, 2} && item.member.None?
    ensures r.Ok? && |item.path| == 1 ==> r.value == EnumOnly(item.path[0])
    ensures r.Ok? && |item.path| == 2 ==> r.value == EnumVariant(item.path[0], item.path[1])
    ensures r.Ok? ==> !r.value.Nothing?
    ensures |item.path| > 2 ==> r == Err(BadPathLength)
    ensures r.Err? && |item.path| <= 2 ==> r.error == SyntaxError
  {
    if item.path == [] then Err(SyntaxError)
    else if |item.path| > 2 then Err(BadPathLength)
    else if item.member.Some? then Err(SyntaxError)  // tokens after the path
    else if |item.path| == 1 then Ok(EnumOnly(item.path[0]))
    else Ok(EnumVariant(item.path[0], item.path[1]))
  }

  /** A container-level attribute must be a non-empty list of identifiers
      without a trailing comma. */
  function ParseContainerMeta(meta: Meta): (r: Result<seq<string>>)
    ensures r.Ok? <==> meta.List? && |meta.items| > 0 && !meta.trailing
                       && forall i :: 0 <= i < |meta.items| ==> ParseContainerItem(meta.items[i]).Ok?
    ensures r.Ok? ==> |r.value| == |meta.items|
                      && forall i :: 0 <= i < |r.value| ==> r.value[i] == meta.items[i].path[0]
    ensures !meta.List? ==> r == Err(MalformedAttribute)
    ensures meta.List? && r.Err? ==>
              r.error == if (forall i :: 0 <= i < |meta.items| ==> ParseContainerItem(meta.items[i]).Ok?)
                            && !(meta.items == [] && meta.trailing)
                         then MalformedAttribute else SyntaxError
  {
    match meta
    case List(items, trailing) => ParseArgs(items, trailing, ParseContainerItem)
    case _ => Err(MalformedAttribute)
  }

  /** The paired enums declared on the annotated enum by all its attributes
      named `name`, concatenated in attribute order. */
  function ExtractContainerAnnotations(attrs: seq<Attribute>, name: string): (r: Result<seq<string>>)
    ensures r.Ok? <==> forall i :: 0 <= i < |attrs| && IsIdent(attrs[i].path, name) ==> ParseContainerMeta(attrs[i].meta).Ok?
  {
    CollectAttributes(attrs, name, ParseContainerMeta)
  }

  /** A variant-level attribute: the bare marker stands for one `Nothing`,
      a list must be non-empty without a trailing comma, and the
      `name = value` form is rejected. */
  function ParseVariantMeta(meta: Meta): (r: Result<seq<VariantAnnotation>>)
    ensures meta.Path? ==> r == Ok([Nothing])
    ensures meta.NameValue? ==> r == Err(MalformedAttribute)
    ensures meta.List? ==>
              (r.Ok? <==> |meta.items| > 0 && !meta.trailing
                          && forall i :: 0 <= i < |meta.items| ==> ParseVariantAnnotation(meta.items[i]).Ok?)
    ensures meta.List? && r.Ok? ==>
              |r.value| == |meta.items| && forall i :: 0 <= i < |r.value| ==> !r.value[i].Nothing?
    ensures meta.List? && r.Err? && (forall i :: 0 <= i < |meta.items| ==> ParseVariantAnnotation(meta.items[i]).Ok?) ==>
              r.error == (if meta.items == [] && meta.trailing then SyntaxError else MalformedAttribute)
    ensures meta.List? && r.Err? && !(forall i :: 0 <= i < |meta.items| ==> ParseVariantAnnotation(meta.items[i]).Ok?) ==>
              exists i :: 0 <= i < |meta.items| && ParseVariantAnnotation(meta.items[i]) == Err(r.error)
                          && forall j :: 0 <= j < i ==> ParseVariantAnnotation(meta.items[j]).Ok?
  {
    match meta
    case Path => Ok([Nothing])
    case List(items, trailing) => ParseArgs(items, trailing, ParseVariantAnnotation)
    case NameValue => Err(MalformedAttribute)
  }

  /** The variant-level annotations of one variant, from all its attributes
      named `name`, concatenated in attribute order. */
  function ExtractVariantLevelAnnotations(attrs: seq<Attribute>, name: string): (r: Result<seq<VariantAnnotation>>)
    ensures r.Ok? <==> forall i :: 0 <= i < |attrs| && IsIdent(attrs[i].path, name) ==> ParseVariantMeta(attrs[i].meta).Ok?
  {
    CollectAttributes(attrs, name, ParseVariantMeta)
  }

  // Rendering annotations back into attributes: the parsers' inverses.

  function RenderVariantAnnotation(a: VariantAnnotation): Item
    requires !a.Nothing?
  {
    match a
    case EnumOnly(e) => Item([e], None)
    case EnumVariant(e, v) => Item([e, v], None)
  }

  function RenderContainerAttribute(name: string, enums: seq<string>): Attribute {
    Attribute([name], List(seq(|enums|, i requires 0 <= i < |enums| => Item([enums[i]], None)), false))
  }

  /** `#[name]` for a lone `Nothing`, otherwise `#[name(...)]`. */
  function RenderVariantAttribute(name: string, annotations: seq<VariantAnnotation>): Attribute
    requires annotations == [Nothing] || forall i :: 0 <= i < |annotations| ==> !annotations[i].Nothing?
  {
    if annotations == [Nothing] then Attribute([name], Path)
    else Attribute([name], List(seq(|annotations|, i requires 0 <= i < |annotations| => RenderVariantAnnotation(annotations[i])), false))
  }

  lemma VariantAnnotationRoundTrip(a: VariantAnnotation)
    requires !a.Nothing?
    ensures ParseVariantAnnotation(RenderVariantAnnotation(a)) == Ok(a)
  {
  }

  /** Any non-empty list of paired enums survives rendering and parsing. */
  lemma ContainerRoundTrip(name: string, enums: seq<string>)
    requires |enums| > 0
    ensures ExtractContainerAnnotations([RenderContainerAttribute(name, enums)], name) == Ok(enums)
  {
    var attr := RenderContainerAttribute(name, enums);
    var r := ParseContainerMeta(attr.meta);
    assert r.Ok?;
    assert r.value == enums;
    CollectSingle(attr, name, ParseContainerMeta);
  }

  /** Any list of variant annotations the grammar can express survives
      rendering and parsing: a lone `Nothing`, or a non-empty list without
      `Nothing`. */
  lemma VariantRoundTrip(name: string, annotations: seq<VariantAnnotation>)
    requires annotations == [Nothing] || (|annotations| > 0 && forall i :: 0 <= i < |annotations| ==> !annotations[i].Nothing?)
    ensures ExtractVariantLevelAnnotations([RenderVariantAttribute(name, annotations)], name) == Ok(annotations)
  {
    var attr := RenderVariantAttribute(name, annotations);
    CollectSingle(attr, name, ParseVariantMeta);
    if annotations != [Nothing] {
      var items := attr.meta.items;
      forall i | 0 <= i < |items| ensures ParseVariantAnnotation(items[i]) == Ok(annotations[i]) {
        VariantAnnotationRoundTrip(annotations[i]);
      }
      var r := ParseVariantMeta(attr.meta);
      assert r.Ok?;
      assert r.value == annotations;
    }
  }
}

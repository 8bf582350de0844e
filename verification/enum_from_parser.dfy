/** The `EnumFrom` annotation parser (src/enum_from/parser.rs): turns the
    attributes of the target enum, of its variants and of their fields into
    annotation records, without checking them against each other. */
module EnumFromParser {
  import opened Results
  import opened Syntax
  import opened Annotations

  const AttributeName: string := "enum_from"

  /** Field positions are `usize` values on a 64-bit target. */
  const UsizeLimit: nat := 0x1_0000_0000_0000_0000

  datatype ParsedEnumFrom = ParsedEnumFrom(
    targetEnum: string,
    containerAnnotations: seq<string>,
    variantsAnnotations: seq<AnnotatedVariant<FieldRef>>)

  /** `SourceEnum::SourceVariant.field`, where the field is an identifier or
      a position. The segment count is checked before the `.`. */
  function ParseFieldAnnotation(item: Item): (r: Result<FieldAnnotation<FieldRef>>)
    ensures r.Ok? ==> |item.path| == 2 && r.value.enumName == item.path[0] && r.value.variant == item.path[1]
    ensures item.path == [] ==> r == Err(SyntaxError)
    ensures item.path != [] && |item.path| != 2 ==> r == Err(BadPathLength)
    ensures |item.path| == 2 && item.member.None? ==> r == Err(SyntaxError)
    ensures |item.path| == 2 && item.member == Some(Other) ==> r == Err(BadFieldSelector)
    ensures |item.path| == 2 && item.member.Some? && item.member.value.Ident? ==>
              r.Ok? && r.value.field == Name(item.member.value.name)
    ensures |item.path| == 2 && item.member.Some? && item.member.value.Int? ==>
              if item.member.value.value < UsizeLimit then r.Ok? && r.value.field == Pos(item.member.value.value)
              else r == Err(SyntaxError)
  {
    if item.path == [] then Err(SyntaxError)
    else if |item.path| != 2 then Err(BadPathLength)
    else
      match item.member
      case None => Err(SyntaxError)  // the `.` is missing
      case Some(selector) =>
        var field :-
          match selector
          case Ident(name) => Ok(Name(name))
          case Int(n) => if n < UsizeLimit then Ok(Pos(n)) else Err(SyntaxError)
          case Other => Err(BadFieldSelector);
        Ok(FieldAnnotation(item.path[0], item.path[1], field))
  }

  /** A field-level attribute must be a non-empty list of field annotations
      without a trailing comma; the bare and `name = value` forms are
      rejected. */
  function ParseFieldMeta(meta: Meta): (r: Result<seq<FieldAnnotation<FieldRef>>>)
    ensures !meta.List? ==> r == Err(MalformedAttribute)
    ensures meta.List? ==>
              (r.Ok? <==> |meta.items| > 0 && !meta.trailing
                          && forall i :: 0 <= i < |meta.items| ==> ParseFieldAnnotation(meta.items[i]).Ok?)
    ensures r.Ok? ==> |r.value| == |meta.items|
                      && forall i :: 0 <= i < |r.value| ==> r.value[i] == ParseFieldAnnotation(meta.items[i]).value

    ensures meta.List? && r.Err? && (forall i :: 0 <= i < |meta.items| ==> ParseFieldAnnotation(meta.items[i]).Ok?) ==>
              r.error == (if meta.items == [] && meta.trailing then SyntaxError else MalformedAttribute)
    ensures meta.List? && r.Err? && !(forall i :: 0 <= i < |meta.items| ==> ParseFieldAnnotation(meta.items[i]).Ok?) ==>
              exists i :: 0 <= i < |meta.items| && ParseFieldAnnotation(meta.items[i]) == Err(r.error)
                          && forall j :: 0 <= j < i ==> ParseFieldAnnotation(meta.items[j]).Ok?
  {
    match meta
    case List(items, trailing) => ParseArgs(items, trailing, ParseFieldAnnotation)
    case _ => Err(MalformedAttribute)
  }

  function ExtractFieldAnnotations(field: Field): (r: Result<seq<FieldAnnotation<FieldRef>>>)
    ensures r.Ok? <==> forall i :: 0 <= i < |field.attrs| && IsIdent(field.attrs[i].path, AttributeName)
                                   ==> ParseFieldMeta(field.attrs[i].meta).Ok?
  {
    CollectAttributes(field.attrs, AttributeName, ParseFieldMeta)
  }

  // Rendering field annotations back into an attribute: the parser's inverse.

  function RenderFieldAnnotation(a: FieldAnnotation<FieldRef>): Item {
    Item([a.enumName, a.variant], Some(match a.field case Name(n) => Ident(n) case Pos(n) => Int(n)))
  }

  function RenderFieldAttribute(annotations: seq<FieldAnnotation<FieldRef>>): Attribute {
    Attribute([AttributeName], List(seq(|annotations|, i requires 0 <= i < |annotations| => RenderFieldAnnotation(annotations[i])), false))
  }

  lemma FieldAnnotationRoundTrip(a: FieldAnnotation<FieldRef>)
    requires a.field.Pos? ==> a.field.pos < UsizeLimit
    ensures ParseFieldAnnotation(RenderFieldAnnotation(a)) == Ok(a)
  {
  }

  /** Any non-empty list of field annotations, each naming a named field, or a position that fits in a `usize`,
      survives rendering as one field attribute and extracting. */
  lemma FieldRoundTrip(ident: Option<string>, annotations: seq<FieldAnnotation<FieldRef>>)
    requires |annotations| > 0
    requires forall i :: 0 <= i < |annotations| ==> var a := annotations[i]; a.field.Pos? ==> a.field.pos < UsizeLimit
    ensures ExtractFieldAnnotations(Field(ident, [RenderFieldAttribute(annotations)])) == Ok(annotations)
  {
    var attr := RenderFieldAttribute(annotations);
    CollectSingle(attr, AttributeName, ParseFieldMeta);
    var items := attr.meta.items;
    forall i | 0 <= i < |items| ensures ParseFieldAnnotation(items[i]) == Ok(annotations[i]) {
      FieldAnnotationRoundTrip(annotations[i]);
    }
    var r := ParseFieldMeta(attr.meta);
    assert r.Ok?;
    assert r.value == annotations;
  }

  /** A named field is keyed by its name, a positional one by its index. */
  function FieldKey(pos: nat, field: Field): FieldRef {
    if field.ident.Some? then Name(field.ident.value) else Pos(pos)
  }

  /** No two named fields share a name. */
  predicate NamesDistinct(fields: seq<Field>) {
    forall i, j :: 0 <= i < j < |fields| && fields[i].ident.Some? && fields[j].ident.Some?
                   ==> fields[i].ident != fields[j].ident
  }

  lemma FieldKeysDistinct(fields: seq<Field>, i: nat, j: nat)
    requires NamesDistinct(fields) && i < j < |fields|
    ensures FieldKey(i, fields[i]) != FieldKey(j, fields[j])
  {
  }

  /** The keys of a variant's fields, in declaration order. */
  function FieldKeys(fields: seq<Field>): (keys: seq<FieldRef>)
    ensures |keys| == |fields| && forall i :: 0 <= i < |fields| ==> keys[i] == FieldKey(i, fields[i])
  {
    seq(|fields|, i requires 0 <= i < |fields| => FieldKey(i, fields[i]))
  }

  /** The field table of one variant: one entry per field, annotated or not.
      Fields are visited in order and the table is a hash map, so of two
      fields with the same key the later one's annotations are kept. */
  function ExtractFieldsAnnotations(fields: seq<Field>): (r: Result<map<FieldRef, seq<FieldAnnotation<FieldRef>>>>)
    ensures r.Ok? <==> forall i :: 0 <= i < |fields| ==> ExtractFieldAnnotations(fields[i]).Ok?
    ensures r.Ok? ==> forall i :: 0 <= i < |fields| ==> FieldKey(i, fields[i]) in r.value
    ensures r.Ok? ==> forall k :: k in r.value ==> exists i :: 0 <= i < |fields| && FieldKey(i, fields[i]) == k
    ensures r.Ok? && NamesDistinct(fields) ==>
              forall i :: 0 <= i < |fields| ==> r.value[FieldKey(i, fields[i])] == ExtractFieldAnnotations(fields[i]).value
  {
    var annotations :- TryMap(fields, ExtractFieldAnnotations);
    FieldTable(fields, annotations);
    Ok(ToMap(FieldKeys(fields), annotations))
  }

  lemma FieldTable<V>(fields: seq<Field>, values: seq<V>)
    requires |values| == |fields|
    ensures forall i :: 0 <= i < |fields| ==> FieldKey(i, fields[i]) in ToMap(FieldKeys(fields), values)
    ensures forall k :: k in ToMap(FieldKeys(fields), values) ==> exists i :: 0 <= i < |fields| && FieldKey(i, fields[i]) == k
    ensures NamesDistinct(fields) ==>
              forall i :: 0 <= i < |fields| ==> ToMap(FieldKeys(fields), values)[FieldKey(i, fields[i])] == values[i]
  {
    var keys := FieldKeys(fields);
    if NamesDistinct(fields) {
      forall i, j | 0 <= i < j < |fields| ensures keys[i] != keys[j] {
        FieldKeysDistinct(fields, i, j);
      }
    }
  }

  function ExtractVariantAnnotations(variant: Variant): (r: Result<VariantAnnotations<FieldRef>>)
    ensures r.Ok? <==> ExtractVariantLevelAnnotations(variant.attrs, AttributeName).Ok?
                       && ExtractFieldsAnnotations(variant.fields.List()).Ok?
    ensures r.Ok? ==> r.value.variantAnnotations == ExtractVariantLevelAnnotations(variant.attrs, AttributeName).value
    ensures r.Ok? ==> r.value.fieldsAnnotations == ExtractFieldsAnnotations(variant.fields.List()).value
  {
    var variantAnnotations :- ExtractVariantLevelAnnotations(variant.attrs, AttributeName);
    var fieldsAnnotations :- ExtractFieldsAnnotations(variant.fields.List());
    Ok(VariantAnnotations(variantAnnotations, fieldsAnnotations))
  }

  function AnnotateVariant(variant: Variant): Result<AnnotatedVariant<FieldRef>> {
    var annotations :- ExtractVariantAnnotations(variant);
    Ok(AnnotatedVariant(variant, annotations))
  }

  /** `ParsedEnumFrom::parse` after tokenisation: the derive input must be an
      enum; its container annotations and then every variant's annotations
      are extracted, the first failure winning. */
  function ParseEnumFrom(input: DeriveInput): (r: Result<ParsedEnumFrom>)
    ensures !input.data.Enum? ==> r == Err(NotAnEnum)
    ensures r.Ok? <==> input.data.Enum?
                       && ExtractContainerAnnotations(input.attrs, AttributeName).Ok?
                       && forall i :: 0 <= i < |input.data.variants| ==> ExtractVariantAnnotations(input.data.variants[i]).Ok?
    ensures r.Ok? ==> r.value.targetEnum == input.ident
                      && r.value.containerAnnotations == ExtractContainerAnnotations(input.attrs, AttributeName).value
                      && |r.value.variantsAnnotations| == |input.data.variants|
                      && forall i :: 0 <= i < |input.data.variants| ==>
                           r.value.variantsAnnotations[i] == AnnotatedVariant(input.data.variants[i], ExtractVariantAnnotations(input.data.variants[i]).value)
  {
    match input.data
    case Enum(variants) =>
      var containerAnnotations :- ExtractContainerAnnotations(input.attrs, AttributeName);
      var annotated :- TryMap(variants, AnnotateVariant);
      Ok(ParsedEnumFrom(input.ident, containerAnnotations, annotated))
    case _ => Err(NotAnEnum)
  }
}

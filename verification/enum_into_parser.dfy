/** The `EnumInto` annotation parser (src/enum_into/parser.rs). The
    container and variant levels share their grammar with `EnumFrom`; the
    field level differs: a field annotation must end in a field name, and
    only named fields have a field table entry. */
module EnumIntoParser {
  import opened Results
  import opened Syntax
  import opened Annotations

  const AttributeName: string := "enum_into"

  datatype ParsedEnumInto = ParsedEnumInto(
    sourceEnum: string,
    containerAnnotations: seq<string>,
    variantsAnnotations: seq<AnnotatedVariant<string>>)

  /** `TargetEnum::TargetVariant.field`: the segment count is checked
      before the `.`, and only an identifier may follow the `.`. */
  function ParseFieldAnnotation(item: Item): (r: Result<FieldAnnotation<string>>)
    ensures r.Ok? <==> |item.path| == 2 && item.member.Some? && item.member.value.Ident?
    ensures r.Ok? ==> r.value == FieldAnnotation(item.path[0], item.path[1], item.member.value.name)
    ensures item.path != [] && |item.path| != 2 ==> r == Err(BadPathLength)
    ensures r.Err? && !(item.path != [] && |item.path| != 2) ==> r.error == SyntaxError
  {
    if item.path == [] then Err(SyntaxError)
    else if |item.path| != 2 then Err(BadPathLength)
    else
      match item.member
      case Some(Ident(name)) => Ok(FieldAnnotation(item.path[0], item.path[1], name))
      case _ => Err(SyntaxError)  // no `.`, or something other than an identifier after it
  }

  /** A field-level attribute must be a non-empty list of field annotations
      without a trailing comma. */
  function ParseFieldMeta(meta: Meta): (r: Result<seq<FieldAnnotation<string>>>)
    ensures !meta.List? ==> r == Err(MalformedAttribute)
    ensures meta.List? ==>
              (r.Ok? <==> |meta.items| > 0 && !meta.trailing
                          && forall i :: 0 <= i < |meta.items| ==> ParseFieldAnnotation(meta.items[i]).Ok?)
    ensures r.Ok? ==> |r.value| == |meta.items|
                      && forall i :: 0 <= i < |r.value| ==> r.value[i] == ParseFieldAnnotation(meta.items[i]).value

    ensures meta.List? && r.Err? && (forall i :: 0 <= i < |meta.items| ==> ParseFieldAnnotation(meta.items[i]).Ok?) ==>
              r.error == (if meta.items == [] && meta.trailing then SyntaxError else MalformedAttribute)
    ensures meta.List? && r.Err? && !(forall i :: 0 <= i < |meta.items| ==> ParseFieldAnnotation(meta.items[i]).Ok?) ==>
              exists i :: 0 <= i < |meta.items| && ParseFieldAnnotation(meta.items[i]) == Err(r.error)
                          && forall j :: 0 <= j < i ==> ParseFieldAnnotation(meta.items[j]).Ok?
  {
    match meta
    case List(items, trailing) => ParseArgs(items, trailing, ParseFieldAnnotation)
    case _ => Err(MalformedAttribute)
  }

  function ExtractFieldAnnotations(field: Field): (r: Result<seq<FieldAnnotation<string>>>)
    ensures r.Ok? <==> forall i :: 0 <= i < |field.attrs| && IsIdent(field.attrs[i].path, AttributeName)
                                   ==> ParseFieldMeta(field.attrs[i].meta).Ok?
  {
    CollectAttributes(field.attrs, AttributeName, ParseFieldMeta)
  }

  // Rendering field annotations back into an attribute: the parser's inverse.

  function RenderFieldAnnotation(a: FieldAnnotation<string>): Item {
    Item([a.enumName, a.variant], Some(Ident(a.field)))
  }

  function RenderFieldAttribute(annotations: seq<FieldAnnotation<string>>): Attribute {
    Attribute([AttributeName], List(seq(|annotations|, i requires 0 <= i < |annotations| => RenderFieldAnnotation(annotations[i])), false))
  }

  lemma FieldAnnotationRoundTrip(a: FieldAnnotation<string>)
    ensures ParseFieldAnnotation(RenderFieldAnnotation(a)) == Ok(a)
  {
  }

  /** Any non-empty list of field annotations, each naming a field name,
      survives rendering as one field attribute and extracting. */
  lemma FieldRoundTrip(ident: Option<string>, annotations: seq<FieldAnnotation<string>>)
    requires |annotations| > 0
    ensures ExtractFieldAnnotations(Field(ident, [RenderFieldAttribute(annotations)])) == Ok(annotations)
  {
    var attr := RenderFieldAttribute(annotations);
    CollectSingle(attr, AttributeName, ParseFieldMeta);
    var items := attr.meta.items;
    forall i | 0 <= i < |items| ensures ParseFieldAnnotation(items[i]) == Ok(annotations[i]) {
      FieldAnnotationRoundTrip(annotations[i]);
    }
    var r := ParseFieldMeta(attr.meta);
    assert r.Ok?;
    assert r.value == annotations;
  }

  /** The named fields among `fields`, in order. */
  function NamedFields(fields: seq<Field>): (r: seq<Field>)
    ensures forall f :: f in r <==> f in fields && f.ident.Some?
  {
    if fields == [] then []
    else (if fields[0].ident.Some? then [fields[0]] else []) + NamedFields(fields[1..])
  }

  /** `NamedFields` is the filter that keeps order and repetitions: it keeps
      a lone field exactly when it is named, and it distributes over
      concatenation. */
  lemma NamedFieldsSingle(f: Field)
    ensures NamedFields([]) == []
    ensures NamedFields([f]) == if f.ident.Some? then [f] else []
  {
    assert [f][1..] == [];
  }

  lemma {:induction false} NamedFieldsAppend(a: seq<Field>, b: seq<Field>)
    ensures NamedFields(a + b) == NamedFields(a) + NamedFields(b)
  {
    if a == [] {
      assert a + b == b;
    } else {
      assert (a + b)[0] == a[0];
      assert (a + b)[1..] == a[1..] + b;
      NamedFieldsAppend(a[1..], b);
      var head := if a[0].ident.Some? then [a[0]] else [];
      assert head + (NamedFields(a[1..]) + NamedFields(b)) == (head + NamedFields(a[1..])) + NamedFields(b);
    }
  }

  function FieldNames(named: seq<Field>): (keys: seq<string>)
    requires forall i :: 0 <= i < |named| ==> named[i].ident.Some?
    ensures |keys| == |named| && forall i :: 0 <= i < |named| ==> keys[i] == named[i].ident.value
  {
    seq(|named|, i requires 0 <= i < |named| => named[i].ident.value)
  }

  /** No two fields carry the same name. */
  predicate NamesDistinct(fields: seq<Field>) {
    forall i, j :: 0 <= i < j < |fields| && fields[i].ident.Some? ==> fields[i].ident != fields[j].ident
  }

  /** The field table of one variant: one entry per named field; the
      attributes of positional fields are not looked at. */
  function ExtractFieldsAnnotations(fields: seq<Field>): (r: Result<map<string, seq<FieldAnnotation<string>>>>)
    ensures r.Ok? <==> forall i :: 0 <= i < |fields| && fields[i].ident.Some? ==> ExtractFieldAnnotations(fields[i]).Ok?
    ensures r.Ok? ==> forall i :: 0 <= i < |fields| && fields[i].ident.Some? ==> fields[i].ident.value in r.value
    ensures r.Ok? ==> forall k :: k in r.value ==> exists i :: 0 <= i < |fields| && fields[i].ident == Some(k)
    ensures r.Ok? && NamesDistinct(fields) ==>
              forall i :: 0 <= i < |fields| && fields[i].ident.Some? ==>
                r.value[fields[i].ident.value] == ExtractFieldAnnotations(fields[i]).value
  {
    var named := NamedFields(fields);
    NamedAnnotations(fields, named, ExtractFieldAnnotations);
    var annotations :- TryMap(named, ExtractFieldAnnotations);
    var table := ToMap(FieldNames(named), annotations);
    NamedTable(fields, named, annotations);
    if NamesDistinct(fields) then
      NamedValues(fields, named, annotations, ExtractFieldAnnotations);
      Ok(table)
    else
      Ok(table)
  }

  /** `f` succeeds on every named field exactly when it succeeds on every
      element of `named`. */
  lemma NamedAnnotations<V>(fields: seq<Field>, named: seq<Field>, f: Field -> Result<V>)
    requires forall x :: x in named <==> x in fields && x.ident.Some?
    ensures (forall j :: 0 <= j < |named| ==> f(named[j]).Ok?)
            <==> forall i :: 0 <= i < |fields| && fields[i].ident.Some? ==> f(fields[i]).Ok?
  {
    assert forall i :: 0 <= i < |fields| && fields[i].ident.Some? ==> fields[i] in named;
    assert forall j :: 0 <= j < |named| ==> named[j] in fields;
  }

  /** With distinct names, the entry of a named field in the table of the
      values `f` computes holds the value `f` computes for that field. */
  lemma NamedValues<V>(fields: seq<Field>, named: seq<Field>, values: seq<V>, f: Field -> Result<V>)
    requires forall x :: x in named <==> x in fields && x.ident.Some?
    requires |values| == |named|
    requires forall j :: 0 <= j < |named| ==> f(named[j]).Ok? && values[j] == f(named[j]).value
    requires NamesDistinct(fields)
    ensures forall i :: 0 <= i < |fields| && fields[i].ident.Some? ==>
              f(fields[i]).Ok? && ToMap(FieldNames(named), values)[fields[i].ident.value] == f(fields[i]).value
  {
    var keys := FieldNames(named);
    var table := ToMap(keys, values);
    forall i | 0 <= i < |fields| && fields[i].ident.Some?
      ensures f(fields[i]).Ok? && table[fields[i].ident.value] == f(fields[i]).value
    {
      assert fields[i] in named;
      var j :| 0 <= j < |keys| && keys[j] == fields[i].ident.value && table[keys[j]] == values[j];
      SameNamedField(fields, named, i, j);
    }
  }

  /** The table built from the named fields has one entry per name. */
  lemma NamedTable<V>(fields: seq<Field>, named: seq<Field>, values: seq<V>)
    requires forall f :: f in named <==> f in fields && f.ident.Some?
    requires |values| == |named|
    ensures forall i :: 0 <= i < |fields| && fields[i].ident.Some? ==> fields[i].ident.value in ToMap(FieldNames(named), values)
    ensures forall k :: k in ToMap(FieldNames(named), values) ==> exists i :: 0 <= i < |fields| && fields[i].ident == Some(k)
  {
    var keys := FieldNames(named);
    var table := ToMap(keys, values);
    forall i | 0 <= i < |fields| && fields[i].ident.Some? ensures fields[i].ident.value in table {
      assert fields[i] in named;
    }
    forall k | k in table ensures exists i :: 0 <= i < |fields| && fields[i].ident == Some(k) {
      var j :| 0 <= j < |keys| && keys[j] == k;
      assert named[j] in fields;
    }
  }

  /** Among distinctly named fields, a named field is the only one
      carrying its name. */
  lemma SameNamedField(fields: seq<Field>, named: seq<Field>, i: nat, j: nat)
    requires forall f :: f in named <==> f in fields && f.ident.Some?
    requires NamesDistinct(fields)
    requires i < |fields| && j < |named| && fields[i].ident.Some? && named[j].ident == fields[i].ident
    ensures named[j] == fields[i]
  {
    assert named[j] in fields;
    var i' :| 0 <= i' < |fields| && fields[i'] == named[j];
    SameNameSameField(fields, i, i');
  }

  lemma SameNameSameField(fields: seq<Field>, i: nat, i': nat)
    requires NamesDistinct(fields)
    requires i < |fields| && i' < |fields| && fields[i].ident.Some? && fields[i'].ident == fields[i].ident
    ensures i == i'
  {
  }

  function ExtractVariantAnnotations(variant: Variant): (r: Result<VariantAnnotations<string>>)
    ensures r.Ok? <==> ExtractVariantLevelAnnotations(variant.attrs, AttributeName).Ok?
                       && ExtractFieldsAnnotations(variant.fields.List()).Ok?
    ensures r.Ok? ==> r.value.variantAnnotations == ExtractVariantLevelAnnotations(variant.attrs, AttributeName).value
    ensures r.Ok? ==> r.value.fieldsAnnotations == ExtractFieldsAnnotations(variant.fields.List()).value
  {
    var variantAnnotations :- ExtractVariantLevelAnnotations(variant.attrs, AttributeName);
    var fieldsAnnotations :- ExtractFieldsAnnotations(variant.fields.List());
    Ok(VariantAnnotations(variantAnnotations, fieldsAnnotations))
  }

  function AnnotateVariant(variant: Variant): Result<AnnotatedVariant<string>> {
    var annotations :- ExtractVariantAnnotations(variant);
    Ok(AnnotatedVariant(variant, annotations))
  }

  /** `ParsedEnumInto::parse` after tokenisation: the derive input must be an
      enum; its container annotations and then every variant's annotations
      are extracted, the first failure winning. */
  function ParseEnumInto(input: DeriveInput): (r: Result<ParsedEnumInto>)
    ensures !input.data.Enum? ==> r == Err(NotAnEnum)
    ensures r.Ok? <==> input.data.Enum?
                       && ExtractContainerAnnotations(input.attrs, AttributeName).Ok?
                       && forall i :: 0 <= i < |input.data.variants| ==> ExtractVariantAnnotations(input.data.variants[i]).Ok?
    ensures r.Ok? ==> r.value.sourceEnum == input.ident
                      && r.value.containerAnnotations == ExtractContainerAnnotations(input.attrs, AttributeName).value
                      && |r.value.variantsAnnotations| == |input.data.variants|
                      && forall i :: 0 <= i < |input.data.variants| ==>
                           r.value.variantsAnnotations[i] == AnnotatedVariant(input.data.variants[i], ExtractVariantAnnotations(input.data.variants[i]).value)
  {
    match input.data
    case Enum(variants) =>
      var containerAnnotations :- ExtractContainerAnnotations(input.attrs, AttributeName);
      var annotated :- TryMap(variants, AnnotateVariant);
      Ok(ParsedEnumInto(input.ident, containerAnnotations, annotated))
    case _ => Err(NotAnEnum)
  }
}

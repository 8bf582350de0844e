/** An abstract view of the syntax trees the derive macros receive from the
    parsing library: attributes, their argument lists, enum variants and
    their fields. Token streams are not modelled; an attribute's argument
    list is already split into comma-separated elements.

    The module also holds the generic combinators that every annotation
    parser of both macros is built from: parse each element of a list,
    reject an empty list or a trailing comma, and gather the lists of all
    attributes that carry the macro's name. */
module Syntax {
  import opened Results

  /** What follows the `.` of a field annotation. */
  datatype FieldSelector = Ident(name: string) | Int(value: nat) | Other

  /** One comma-separated element of an argument list: the path it starts
      with (empty when it does not start with a path) and, when a `.`
      follows that path, what comes after the `.`. */
  datatype Item = Item(path: seq<string>, member: Option<FieldSelector>)

  /** The three attribute forms: `#[name]`, `#[name(items)]` (with or
      without a trailing comma) and `#[name = value]`. */
  datatype Meta = Path | List(items: seq<Item>, trailing: bool) | NameValue

  datatype Attribute = Attribute(path: seq<string>, meta: Meta)

  datatype Field = Field(ident: Option<string>, attrs: seq<Attribute>)

  datatype Fields = Unit | Unnamed(unnamed: seq<Field>) | Named(named: seq<Field>) {

    /** All fields in declaration order. */
    function List(): seq<Field> {
      match this
      case Unit => []
      case Unnamed(fs) => fs
      case Named(fs) => fs
    }

    /** What the parsing library guarantees: named fields carry a name and
        positional fields do not. */
    predicate WellFormed() {
      match this
      case Unit => true
      case Unnamed(fs) => forall i :: 0 <= i < |fs| ==> fs[i].ident.None?
      case Named(fs) => forall i :: 0 <= i < |fs| ==> fs[i].ident.Some?
    }
  }

  datatype Variant = Variant(ident: string, attrs: seq<Attribute>, fields: Fields)

  datatype Data = Enum(variants: seq<Variant>) | Struct | Union

  datatype DeriveInput = DeriveInput(ident: string, attrs: seq<Attribute>, data: Data)

  /** An attribute path names the macro when it is exactly that one identifier. */
  predicate IsIdent(path: seq<string>, name: string) {
    path == [name]
  }

  /** Applies `f` to every element, stopping at the first failure. */
  function TryMap<A, T>(xs: seq<A>, f: A -> Result<T>): (r: Result<seq<T>>)
    ensures r.Ok? <==> forall i :: 0 <= i < |xs| ==> f(xs[i]).Ok?
    ensures r.Ok? ==> |r.value| == |xs| && forall i :: 0 <= i < |xs| ==> r.value[i] == f(xs[i]).value
    ensures r.Err? ==> exists i :: 0 <= i < |xs| && f(xs[i]) == Err(r.error)
                                   && forall j :: 0 <= j < i ==> f(xs[j]).Ok?
  {
    if xs == [] then Ok([])
    else
      match f(xs[0])
      case Err(e) => Err(e)
      case Ok(head) =>
        var tail := TryMap(xs[1..], f);
        if tail.Err? then
          assert exists i :: 0 <= i < |xs[1..]| && f(xs[1..][i]) == Err(tail.error)
                             && forall j :: 0 <= j < i ==> f(xs[1..][j]).Ok?;
          var i :| 0 <= i < |xs[1..]| && f(xs[1..][i]) == Err(tail.error)
                   && forall j :: 0 <= j < i ==> f(xs[1..][j]).Ok?;
          assert f(xs[i + 1]) == Err(tail.error);
          assert forall j :: 0 <= j < i + 1 ==> f(xs[j]).Ok? by {
            forall j | 0 <= j < i + 1 ensures f(xs[j]).Ok? {
              if j > 0 {
                assert xs[j] == xs[1..][j - 1];
              }
            }
          }
          Err(tail.error)
        else
          Ok([head] + tail.value)
  }

  /** A punctuated argument list: every element must parse; a lone comma is
      a syntax error; an empty list or a trailing comma is rejected. */
  function ParseArgs<T>(items: seq<Item>, trailing: bool, f: Item -> Result<T>): (r: Result<seq<T>>)
    ensures r.Ok? <==> |items| > 0 && !trailing && forall i :: 0 <= i < |items| ==> f(items[i]).Ok?
    ensures r.Ok? ==> |r.value| == |items| && forall i :: 0 <= i < |items| ==> r.value[i] == f(items[i]).value
    ensures r.Err? && (forall i :: 0 <= i < |items| ==> f(items[i]).Ok?) ==>
              r.error == (if items == [] && trailing then SyntaxError else MalformedAttribute)
    ensures r.Err? && !(forall i :: 0 <= i < |items| ==> f(items[i]).Ok?) ==>
              exists i :: 0 <= i < |items| && f(items[i]) == Err(r.error)
                          && forall j :: 0 <= j < i ==> f(items[j]).Ok?
  {
    if items == [] && trailing then Err(SyntaxError)
    else
      var xs :- TryMap(items, f);
      if |xs| == 0 || trailing then Err(MalformedAttribute) else Ok(xs)
  }

  /** The attributes among `attrs` that carry the macro's name, in order. */
  function Named(attrs: seq<Attribute>, name: string): (r: seq<Attribute>)
    ensures forall a :: a in r <==> a in attrs && IsIdent(a.path, name)
  {
    if attrs == [] then []
    else (if IsIdent(attrs[0].path, name) then [attrs[0]] else []) + Named(attrs[1..], name)
  }

  /** `Named` is the filter that keeps order and repetitions: it keeps a
      lone attribute exactly when it carries the name, and it distributes
      over concatenation. */
  lemma NamedSingle(a: Attribute, name: string)
    ensures Named([], name) == []
    ensures Named([a], name) == if IsIdent(a.path, name) then [a] else []
  {
    assert [a][1..] == [];
  }

  lemma {:induction false} NamedAppend(a: seq<Attribute>, b: seq<Attribute>, name: string)
    ensures Named(a + b, name) == Named(a, name) + Named(b, name)
  {
    if a == [] {
      assert a + b == b;
    } else {
      assert (a + b)[0] == a[0];
      assert (a + b)[1..] == a[1..] + b;
      NamedAppend(a[1..], b, name);
      var head := if IsIdent(a[0].path, name) then [a[0]] else [];
      assert head + (Named(a[1..], name) + Named(b, name)) == (head + Named(a[1..], name)) + Named(b, name);
    }
  }

  /** Parses every attribute named `name` with `parse` and concatenates the
      results in attribute order; the first failure is reported. */
  function CollectAttributes<T>(attrs: seq<Attribute>, name: string, parse: Meta -> Result<seq<T>>): (r: Result<seq<T>>)
    ensures r.Ok? <==> forall i :: 0 <= i < |attrs| && IsIdent(attrs[i].path, name) ==> parse(attrs[i].meta).Ok?
    ensures r.Err? ==> exists i :: 0 <= i < |attrs| && IsIdent(attrs[i].path, name) && parse(attrs[i].meta) == Err(r.error)
  {
    if attrs == [] then Ok([])
    else if !IsIdent(attrs[0].path, name) then
      var r := CollectAttributes(attrs[1..], name, parse);
      assert r.Err? ==> exists i :: 0 <= i < |attrs[1..]| && IsIdent(attrs[1..][i].path, name) && parse(attrs[1..][i].meta) == Err(r.error);
      r
    else
      var head :- parse(attrs[0].meta);
      var tail :- CollectAttributes(attrs[1..], name, parse);
      Ok(head + tail)
  }

  /** A single attribute named `name` contributes exactly its own list. */
  lemma CollectSingle<T>(a: Attribute, name: string, parse: Meta -> Result<seq<T>>)
    requires IsIdent(a.path, name)
    ensures CollectAttributes([a], name, parse) == parse(a.meta)
  {
    assert [a][1..] == [];
    match parse(a.meta)
    case Err(e) =>
    case Ok(xs) => assert xs + [] == xs;
  }

  /** Attributes that do not carry the macro's name play no part. */
  lemma {:induction false} CollectIgnoresOtherAttributes<T>(attrs: seq<Attribute>, name: string, parse: Meta -> Result<seq<T>>)
    ensures CollectAttributes(attrs, name, parse) == CollectAttributes(Named(attrs, name), name, parse)
  {
    if attrs != [] {
      CollectIgnoresOtherAttributes(attrs[1..], name, parse);
      var rest := Named(attrs[1..], name);
      if IsIdent(attrs[0].path, name) {
        var n := Named(attrs, name);
        assert n == [attrs[0]] + rest;
        assert n[0] == attrs[0];
        assert n[1..] == rest;
      } else {
        assert Named(attrs, name) == rest;
      }
    }
  }

  /** The lists of consecutive groups of attributes are concatenated in
      order, and a failure in an earlier group wins over a later one. */
  lemma {:induction false} CollectAppend<T>(a: seq<Attribute>, b: seq<Attribute>, name: string, parse: Meta -> Result<seq<T>>)
    ensures CollectAttributes(a + b, name, parse) ==
              match CollectAttributes(a, name, parse)
              case Err(e) => Err(e)
              case Ok(xs) =>
                match CollectAttributes(b, name, parse)
                case Err(e) => Err(e)
                case Ok(ys) => Ok(xs + ys)
  {
    if a == [] {
      assert a + b == b;
      match CollectAttributes(b, name, parse)
      case Err(e) =>
      case Ok(ys) => assert [] + ys == ys;
    } else {
      assert (a + b)[0] == a[0];
      assert (a + b)[1..] == a[1..] + b;
      CollectAppend(a[1..], b, name, parse);
      if IsIdent(a[0].path, name) && parse(a[0].meta).Ok? {
        var head := parse(a[0].meta).value;
        match CollectAttributes(a[1..], name, parse)
        case Err(e) =>
        case Ok(xs) =>
          match CollectAttributes(b, name, parse)
          case Err(e) =>
          case Ok(ys) =>
            assert head + (xs + ys) == (head + xs) + ys;
      }
    }
  }

  /** The position of the last occurrence of `k` in `keys`. */
  function LastIndex<K(==)>(keys: seq<K>, k: K): (i: nat)
    requires k in keys
    ensures i < |keys| && keys[i] == k
    ensures forall j :: i < j < |keys| ==> keys[j] != k
  {
    if keys[|keys| - 1] == k then |keys| - 1 else LastIndex(keys[..|keys| - 1], k)
  }

  /** Collects key/value pairs (given as two sequences of equal length) into
      a map; a later pair overrides an earlier one with the same key, as
      inserting them one by one into a hash map does. */
  function ToMap<K(==), V>(keys: seq<K>, values: seq<V>): (m: map<K, V>)
    requires |keys| == |values|
    ensures forall i :: 0 <= i < |keys| ==> keys[i] in m
    ensures forall k :: k in m ==> exists i :: 0 <= i < |keys| && keys[i] == k
    ensures forall i :: 0 <= i < |keys| && (forall j :: i < j < |keys| ==> keys[j] != keys[i]) ==> m[keys[i]] == values[i]
    ensures forall k :: k in m ==> exists i :: 0 <= i < |keys| && keys[i] == k && m[k] == values[i]
  {
    var m := map k | k in keys :: values[LastIndex(keys, k)];
    assert forall i :: 0 <= i < |keys| && (forall j :: i < j < |keys| ==> keys[j] != keys[i]) ==> LastIndex(keys, keys[i]) == i;
    m
  }
}

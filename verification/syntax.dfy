/** The Rust syntax the derive macros read and the shapes of the code they
    write, both as plain data.

    Input side: type shapes (for `get_path_str` and the casts of the
    number editors), generic parameter lists (`add_trait_bounds`), and the
    field/variant shapes of a derive input, parameterised by the attribute
    bag each crate parses.

    Output side: the match arms, patterns and constructor expressions that
    the enum generators emit. The widget calls themselves are modelled in
    each crate's own module. */
module Syntax {
  import opened Wrappers
  import opened Text

  // ---------------------------------------------------------------------
  // Types

  datatype PathSegment = PathSegment(ident: string, hasArguments: bool)

  /** A field type: a path (`f32`, `std::string::String`, `Vec<u8>`), a
      reference `&T` / `&mut T`, or any other shape (slice, tuple, array,
      `fn` types, ...). */
  datatype Type =
    | PathType(leadingColon: bool, segments: seq<PathSegment>)
    | RefType(mutable: bool, elem: Type)
    | OtherType

  /** `syn::Path::get_ident`: the identifier of a path that has no leading
      `::`, exactly one segment and no generic arguments on it. */
  function GetIdent(leadingColon: bool, segments: seq<PathSegment>): (r: Option<string>)
    ensures r.Some? <==> !leadingColon && |segments| == 1 && !segments[0].hasArguments
    ensures r.Some? ==> r.value == segments[0].ident
  {
    if !leadingColon && |segments| == 1 && !segments[0].hasArguments then Some(segments[0].ident) else None
  }

  // ---------------------------------------------------------------------
  // Generics and `add_trait_bounds`

  datatype GenericParam =
    | TypeParam(name: string, bounds: seq<string>)
    | LifetimeParam(name: string)
    | ConstParam(name: string)

  /** `add_trait_bounds` of both derive crates: every type parameter gets the
      inspect trait (`bound`) appended to its bounds; lifetime and const
      parameters are left alone, and the list keeps its order. */
  method AddTraitBounds(generics: seq<GenericParam>, bound: string) returns (r: seq<GenericParam>)
    ensures |r| == |generics|
    ensures forall i :: 0 <= i < |r| && generics[i].TypeParam? ==>
      r[i] == TypeParam(generics[i].name, generics[i].bounds + [bound])
    ensures forall i :: 0 <= i < |r| && !generics[i].TypeParam? ==> r[i] == generics[i]
  {
    r := [];
    var i := 0;
    while i < |generics|
      invariant 0 <= i <= |generics|
      invariant |r| == i
      invariant forall j :: 0 <= j < i && generics[j].TypeParam? ==>
        r[j] == TypeParam(generics[j].name, generics[j].bounds + [bound])
      invariant forall j :: 0 <= j < i && !generics[j].TypeParam? ==> r[j] == generics[j]
    {
      var param := generics[i];
      if param.TypeParam? {
        param := param.(bounds := param.bounds + [bound]);
      }
      r := r + [param];
      i := i + 1;
    }
  }

  // ---------------------------------------------------------------------
  // Derive input shapes, parameterised by the attribute bag `A`. Attribute
  // parsing can fail (darling reports an error), hence `Result<A, string>`.

  datatype NamedField<A> = NamedField(name: string, ty: Type, attrs: Result<A, string>)
  datatype UnnamedField<A> = UnnamedField(ty: Type, attrs: Result<A, string>)

  datatype Fields<A> =
    | UnitFields
    | UnnamedFields(unnamed: seq<UnnamedField<A>>)
    | NamedFields(named: seq<NamedField<A>>)

  datatype Variant<A> = Variant(ident: string, attrs: Result<A, string>, fields: Fields<A>)

  datatype Data<A> =
    | StructData(fields: Fields<A>)
    | EnumData(variants: seq<Variant<A>>)
    | UnionData

  function FieldCount<A>(f: Fields<A>): nat {
    match f
    case UnitFields => 0
    case UnnamedFields(fs) => |fs|
    case NamedFields(fs) => |fs|
  }

  /** Skipping a variant whose attributes parse keeps whether some later
      variant fails, and which one fails first. */
  lemma VariantFailuresShift<A>(vs: seq<Variant<A>>)
    requires |vs| > 0 && vs[0].attrs.Success?
    ensures (exists i :: 0 <= i < |vs| && vs[i].attrs.Failure?) <==>
            (exists i :: 0 <= i < |vs[1..]| && vs[1..][i].attrs.Failure?)
  {
    if i :| 0 <= i < |vs| && vs[i].attrs.Failure? {
      assert vs[1..][i - 1] == vs[i];
    }
  }

  lemma VariantFirstFailureShift<A>(vs: seq<Variant<A>>, msg: string)
    requires |vs| > 0 && vs[0].attrs.Success?
    requires exists i :: 0 <= i < |vs[1..]| && vs[1..][i].attrs == Failure(msg) &&
                         forall j :: 0 <= j < i ==> vs[1..][j].attrs.Success?
    ensures exists i :: 0 <= i < |vs| && vs[i].attrs == Failure(msg) &&
                        forall j :: 0 <= j < i ==> vs[j].attrs.Success?
  {
    var i :| 0 <= i < |vs[1..]| && vs[1..][i].attrs == Failure(msg) && forall j :: 0 <= j < i ==> vs[1..][j].attrs.Success?;
    assert vs[i + 1] == vs[1..][i];
    assert forall j :: 1 <= j < i + 1 ==> vs[j] == vs[1..][j - 1];
  }

  /** Skipping a tuple field whose attributes parse keeps whether all the
      fields parse, and which one fails first. */
  lemma FieldFailuresShift<A>(fs: seq<UnnamedField<A>>)
    requires |fs| > 0 && fs[0].attrs.Success?
    ensures (forall i :: 0 <= i < |fs| ==> fs[i].attrs.Success?) <==>
            (forall i :: 0 <= i < |fs[1..]| ==> fs[1..][i].attrs.Success?)
  {
    if forall i :: 0 <= i < |fs[1..]| ==> fs[1..][i].attrs.Success? {
      forall i | 1 <= i < |fs|
        ensures fs[i].attrs.Success?
      {
        assert fs[i] == fs[1..][i - 1];
      }
    }
  }

  lemma FieldFirstFailureShift<A>(fs: seq<UnnamedField<A>>, msg: string)
    requires |fs| > 0 && fs[0].attrs.Success?
    requires exists i :: 0 <= i < |fs[1..]| && fs[1..][i].attrs == Failure(msg) &&
                         forall j :: 0 <= j < i ==> fs[1..][j].attrs.Success?
    ensures exists i :: 0 <= i < |fs| && fs[i].attrs == Failure(msg) &&
                        forall j :: 0 <= j < i ==> fs[j].attrs.Success?
  {
    var i :| 0 <= i < |fs[1..]| && fs[1..][i].attrs == Failure(msg) && forall j :: 0 <= j < i ==> fs[1..][j].attrs.Success?;
    assert fs[i + 1] == fs[1..][i];
    assert forall j :: 1 <= j < i + 1 ==> fs[j] == fs[1..][j - 1];
  }

  // ---------------------------------------------------------------------
  // Generated code shapes

  /** The place a generated call edits: `&mut self.name`, `&mut self.0`, or
      a variable bound by a match pattern (`field0`, `name`). */
  datatype Access = SelfField(name: string) | SelfIndex(index: nat) | Bound(name: string)

  /** The binding name `field{i}` used for the i-th field of a tuple variant. */
  function TupleBinding(i: nat): string {
    "field" + NatToDecimal(i)
  }

  /** One entry of a struct-variant pattern: `name` binds the field,
      `name: _` ignores it. */
  datatype FieldBinding = BindField(field: string) | IgnoreField(field: string)

  datatype Pattern =
    | UnitPattern(variant: string)
    | TuplePattern(variant: string, bindings: seq<Option<string>>)   // `None` is `_`
    | StructPattern(variant: string, fields: seq<FieldBinding>)

  /** The value selected in the combo box: a unit variant, a tuple variant
      with `Default::default()` for each position, or a struct variant with
      `name: Default::default()` for each named field. */
  datatype DefaultCtor =
    | UnitCtor(variant: string)
    | TupleCtor(variant: string, defaults: nat)
    | StructCtor(variant: string, fieldNames: seq<string>)

  /** Arm of the `selected_text(match self { ... })` expression. */
  datatype TextArm = TextArm(pattern: Pattern, caption: string) | TextWildcard

  /** `if ui.selectable_value(self, ctor, caption).changed() { *self = ctor; }` */
  datatype SelectBlock = SelectBlock(ctor: DefaultCtor, caption: string)

  /** Arm of the trailing `match self { ... }` that edits the variant's
      fields; `C` is the crate's per-field call shape. */
  datatype ContentArm<C> = ContentArm(pattern: Pattern, calls: seq<C>) | ContentWildcard

  function FieldNames<A>(fs: seq<NamedField<A>>): (r: seq<string>)
    ensures |r| == |fs|
    ensures forall i :: 0 <= i < |fs| ==> r[i] == fs[i].name
  {
    if |fs| == 0 then [] else [fs[0].name] + FieldNames(fs[1..])
  }

  /** The field named by a struct-pattern entry. */
  function BindingField(b: FieldBinding): string {
    match b
    case BindField(f) => f
    case IgnoreField(f) => f
  }

  /** A Rust struct pattern without `..` must mention every field of the
      variant exactly once and no other; Rust rejects it otherwise. */
  predicate StructPatternCovers(fields: seq<string>, bindings: seq<FieldBinding>) {
    |bindings| == |fields| &&
    forall i :: 0 <= i < |fields| ==> BindingField(bindings[i]) == fields[i]
  }

  /** A tuple pattern must have one entry per field. */
  predicate TuplePatternCovers(arity: nat, bindings: seq<Option<string>>) {
    |bindings| == arity
  }

  /** Whether a generated pattern is accepted by Rust for a variant with
      these fields. */
  predicate PatternFits<A>(p: Pattern, fields: Fields<A>) {
    match p
    case UnitPattern(_) => fields.UnitFields?
    case TuplePattern(_, bs) => fields.UnnamedFields? && TuplePatternCovers(|fields.unnamed|, bs)
    case StructPattern(_, bs) => fields.NamedFields? && StructPatternCovers(FieldNames(fields.named), bs)
  }

  /** `_` for every position: the pattern of the text arms of tuple variants. */
  function Wildcards(n: nat): (r: seq<Option<string>>)
    ensures |r| == n
    ensures forall i :: 0 <= i < n ==> r[i].None?
  {
    if n == 0 then [] else Wildcards(n - 1) + [None]
  }

  /** `field0, field1, ...`: the pattern of the content arms of tuple variants. */
  function TupleBindings(n: nat): (r: seq<Option<string>>)
    ensures |r| == n
    ensures forall i :: 0 <= i < n ==> r[i] == Some(TupleBinding(i))
  {
    if n == 0 then [] else TupleBindings(n - 1) + [Some(TupleBinding(n - 1))]
  }

  /** `name: _` for every field: the pattern of the text arms of struct variants. */
  function IgnoreAll(names: seq<string>): (r: seq<FieldBinding>)
    ensures |r| == |names|
    ensures forall i :: 0 <= i < |names| ==> r[i] == IgnoreField(names[i])
  {
    if |names| == 0 then [] else [IgnoreField(names[0])] + IgnoreAll(names[1..])
  }

  // ---------------------------------------------------------------------
  // Fragment lists in which some entries emit nothing (`quote!()`)

  /** The fragments that emit something, in order. */
  function Flatten<T>(xs: seq<Option<T>>): (r: seq<T>)
    ensures |r| <= |xs|
    ensures (forall i :: 0 <= i < |xs| ==> xs[i].Some?) ==> |r| == |xs|
  {
    if |xs| == 0 then []
    else
      var rest := Flatten(xs[1..]);
      match xs[0] case Some(x) => [x] + rest case None => rest
  }

  /** Every emitted fragment comes from a present entry, and every present
      entry is emitted. */
  lemma {:induction false} FlattenMembers<T>(xs: seq<Option<T>>)
    ensures forall k :: 0 <= k < |Flatten(xs)| ==> exists i :: 0 <= i < |xs| && xs[i] == Some(Flatten(xs)[k])
    ensures forall i :: 0 <= i < |xs| && xs[i].Some? ==> xs[i].value in Flatten(xs)
    decreases |xs|
  {
    if |xs| > 0 {
      FlattenMembers(xs[1..]);
      var rest := Flatten(xs[1..]);
      var r := Flatten(xs);
      assert r == if xs[0].Some? then [xs[0].value] + rest else rest;
      forall k | 0 <= k < |Flatten(xs)|
        ensures exists i :: 0 <= i < |xs| && xs[i] == Some(Flatten(xs)[k])
      {
        if xs[0].Some? && k == 0 {
          assert xs[0] == Some(r[k]);
        } else {
          var k' := if xs[0].Some? then k - 1 else k;
          assert r[k] == rest[k'];
          var i :| 0 <= i < |xs[1..]| && xs[1..][i] == Some(rest[k']);
          assert xs[i + 1] == Some(r[k]);
        }
      }
      forall i | 0 <= i < |xs| && xs[i].Some?
        ensures xs[i].value in r
      {
        if i > 0 {
          assert xs[1..][i - 1] == xs[i];
        }
      }
    } else {
      assert Flatten(xs) == [];
    }
  }

  /** Flattening distributes over concatenation, and a single entry emits
      its own fragment or nothing; together these fix the order of the
      emitted fragments. */
  lemma {:induction false} FlattenAppend<T>(a: seq<Option<T>>, b: seq<Option<T>>)
    ensures Flatten(a + b) == Flatten(a) + Flatten(b)
    ensures |a| == 1 ==> Flatten(a) == if a[0].Some? then [a[0].value] else []
    decreases |a|
  {
    if |a| > 0 {
      assert (a + b)[1..] == a[1..] + b;
      assert (a + b)[0] == a[0];
      FlattenAppend(a[1..], b);
      match a[0]
      case Some(x) =>
        calc {
          Flatten(a + b);
          [x] + Flatten(a[1..] + b);
          [x] + (Flatten(a[1..]) + Flatten(b));
          ([x] + Flatten(a[1..])) + Flatten(b);
        }
      case None =>
    } else {
      assert a + b == b;
    }
  }

  /** An entry that emits nothing can be dropped. */
  lemma FlattenDropNone<T>(a: seq<Option<T>>, b: seq<Option<T>>)
    ensures Flatten(a + [None] + b) == Flatten(a + b)
  {
    FlattenAppend(a + [None], b);
    FlattenAppend(a, [None]);
    FlattenAppend(a, b);
    var none: seq<Option<T>> := [None];
    assert none[1..] == [];
  }

  /** Extending a prefix by one entry adds that entry's fragment, if any. */
  lemma FlattenPrefixStep<T>(xs: seq<Option<T>>, i: nat)
    requires i < |xs|
    ensures Flatten(xs[..i + 1]) == Flatten(xs[..i]) + (if xs[i].Some? then [xs[i].value] else [])
  {
    assert xs[..i + 1] == xs[..i] + [xs[i]];
    FlattenAppend(xs[..i], [xs[i]]);
    assert [xs[i]][1..] == [];
  }

  /** Flattening with every entry present gives the entries themselves. */
  lemma {:induction false} FlattenAllPresent<T>(xs: seq<Option<T>>)
    requires forall i :: 0 <= i < |xs| ==> xs[i].Some?
    ensures |Flatten(xs)| == |xs|
    ensures forall i :: 0 <= i < |xs| ==> Flatten(xs)[i] == xs[i].value
    decreases |xs|
  {
    if |xs| > 0 {
      FlattenAllPresent(xs[1..]);
      forall i | 1 <= i < |xs|
        ensures Flatten(xs)[i] == xs[i].value
      {
        assert xs[1..][i - 1] == xs[i];
      }
    }
  }
}

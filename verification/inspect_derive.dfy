/** egui_inspect_derive/src/lib.rs: the older `DefaultEguiInspect` derive.
    Its attribute bag is simpler than the field-editor crate's (`slider`,
    `multiline` and `color` are plain switches, no custom function, no
    date or file pickers), a variant is always labelled by its identifier,
    and the per-field call goes to a `get_function_call` that is not part
    of this model: a field's call is recorded with the arguments it is
    given. */
module InspectDerive {
  import opened Wrappers
  import opened Text
  import opened Syntax

  /** `Range`: both bounds default to zero. */
  datatype NumberRange = NumberRange(min: real, max: real)

  datatype InspectArgs = InspectArgs(
    name: Option<string>,
    hidden: bool,
    readOnly: bool,
    slider: bool,
    multiline: bool,
    color: bool,
    range: Option<NumberRange>,
    tooltip: Option<string>)

  /** `AttributeArgs::default`: what a field or variant without
      `#[inspect]` gets. */
  function DefaultInspectArgs(): (a: InspectArgs)
    ensures a.name.None? && a.range.None? && a.tooltip.None?
    ensures !a.hidden && !a.readOnly && !a.slider && !a.multiline && !a.color
  {
    InspectArgs(None, false, false, false, false, false, None, None)
  }

  /** The code generated for one field: a call of `get_function_call` with
      the place to edit, the field's identifier and type, its attributes
      and the default label; or the field's own `compile_error!`. */
  datatype InspectCall =
    | FieldCall(access: Access, ident: Option<string>, ty: Type, attrs: InspectArgs, defaultName: string)
    | FieldError(message: string)

  // ---------------------------------------------------------------------
  // Structs

  /** The fragment of a named field of a struct: it edits `self.name`; a
      hidden field emits nothing. */
  function NamedStructSlot(f: NamedField<InspectArgs>): (r: Option<InspectCall>)
    ensures r.None? <==> f.attrs.Success? && f.attrs.value.hidden
    ensures f.attrs.Failure? ==> r == Some(FieldError(f.attrs.error))
    ensures r.Some? && f.attrs.Success? ==> r.value == FieldCall(SelfField(f.name), Some(f.name), f.ty, f.attrs.value, "")
  {
    match f.attrs
    case Failure(msg) => Some(FieldError(msg))
    case Success(a) => if a.hidden then None else Some(FieldCall(SelfField(f.name), Some(f.name), f.ty, a, ""))
  }

  /** `get_code_for_struct_named_fields`. */
  function NamedStructCalls(fs: seq<NamedField<InspectArgs>>): (r: seq<InspectCall>)
    ensures |r| <= |fs|
  {
    Flatten(seq(|fs|, i requires 0 <= i < |fs| => NamedStructSlot(fs[i])))
  }

  /** A named struct gets one fragment per field that is not hidden, in
      field order; hidden fields leave no trace. */
  lemma {:induction false} NamedStructCallsVisible(fs: seq<NamedField<InspectArgs>>)
    ensures NamedStructCalls(fs) == if |fs| == 0 then [] else
      (if fs[0].attrs.Success? && fs[0].attrs.value.hidden then [] else [NamedStructSlot(fs[0]).value]) + NamedStructCalls(fs[1..])
  {
    if |fs| > 0 {
      var slots := seq(|fs|, i requires 0 <= i < |fs| => NamedStructSlot(fs[i]));
      var rest := seq(|fs[1..]|, i requires 0 <= i < |fs[1..]| => NamedStructSlot(fs[1..][i]));
      assert slots == [slots[0]] + rest;
      FlattenAppend([slots[0]], rest);
      assert [slots[0]] + [] == [slots[0]];
      FlattenAppend([], [slots[0]]);
    }
  }

  /** The call of tuple field `i` of a struct: it edits `self.i` and its
      default label is `Field i`. */
  function TupleStructCall(f: UnnamedField<InspectArgs>, i: nat): InspectCall
    requires f.attrs.Success?
  {
    FieldCall(SelfIndex(i), None, f.ty, f.attrs.value, "Field " + NatToDecimal(i))
  }

  /** `get_code_for_struct_unnamed_fields`, from field `from` on: the first
      field whose attributes fail aborts the whole struct with its
      message; `hidden` is not looked at, so every field gets a call. */
  function UnnamedStructCalls(fs: seq<UnnamedField<InspectArgs>>, from: nat): (r: Result<seq<InspectCall>, string>)
    ensures r.Failure? <==> exists i :: 0 <= i < |fs| && fs[i].attrs.Failure?
    ensures r.Failure? ==> (exists i :: 0 <= i < |fs| && fs[i].attrs == Failure(r.error) &&
                                        forall j :: 0 <= j < i ==> fs[j].attrs.Success?)
    ensures r.Success? ==> |r.value| == |fs|
    ensures r.Success? ==> forall i :: 0 <= i < |fs| ==> fs[i].attrs.Success? && r.value[i] == TupleStructCall(fs[i], from + i)
    decreases |fs|
  {
    if |fs| == 0 then Success([])
    else
      match fs[0].attrs
      case Failure(msg) => Failure(msg)
      case Success(_) =>
        var rest := UnnamedStructCalls(fs[1..], from + 1);
        FieldFailuresShift(fs);
        if rest.Failure? then
          FieldFirstFailureShift(fs, rest.error);
          Failure(rest.error)
        else
          assert forall i :: 1 <= i < |fs| ==> fs[i] == fs[1..][i - 1];
          var r := [TupleStructCall(fs[0], from)] + rest.value;
          assert forall i :: 1 <= i < |fs| ==> r[i] == rest.value[i - 1];
          Success(r)
  }

  /** The error fragment the source emits for a tuple field whose
      attributes fail: `#ident: { compile_error!(#msg); }`, where `ident`
      is the field's identifier. A tuple field has none, so nothing is
      emitted before the `:`. */
  datatype LabelledError = LabelledError(ident: Option<string>, message: string)

  /** Whether the fragment opens with a bare `:`, which cannot start a Rust
      statement. */
  predicate OpensWithColon(e: LabelledError) {
    e.ident.None?
  }

  /** As written: the fragment a tuple struct emits in place of its fields'
      calls when a field fails, or nothing when all fields parse. */
  function TupleStructErrorAsWritten(fs: seq<UnnamedField<InspectArgs>>): (e: Option<LabelledError>)
    ensures e.Some? <==> exists i :: 0 <= i < |fs| && fs[i].attrs.Failure?
    ensures e.Some? ==> e.value.message == UnnamedStructCalls(fs, 0).error
  {
    match UnnamedStructCalls(fs, 0)
    case Failure(msg) => Some(LabelledError(None, msg))
    case Success(_) => None
  }

  /** As written, every tuple struct with a failing field emits a body that
      opens with a bare `:`; for instance `struct T(#[inspect(bogus)] u8);`
      gives `: { compile_error!(..); }`, so the darling message is not
      what the user is shown. */
  lemma TupleStructErrorMalformed(fs: seq<UnnamedField<InspectArgs>>)
    requires exists i :: 0 <= i < |fs| && fs[i].attrs.Failure?
    ensures TupleStructErrorAsWritten(fs).Some? && OpensWithColon(TupleStructErrorAsWritten(fs).value)
    ensures var bogus: seq<UnnamedField<InspectArgs>> := [UnnamedField(PathType(false, [PathSegment("u8", false)]), Failure("Unknown field: `bogus`"))];
      TupleStructErrorAsWritten(bogus) == Some(LabelledError(None, "Unknown field: `bogus`"))
  {
    var bogus: seq<UnnamedField<InspectArgs>> := [UnnamedField(PathType(false, [PathSegment("u8", false)]), Failure("Unknown field: `bogus`"))];
    assert bogus[0].attrs.Failure?;
  }

  // ---------------------------------------------------------------------
  // Enum variants

  datatype VariantCode = VariantCode(text: TextArm, select: SelectBlock, content: ContentArm<InspectCall>)

  /** The fragment of field `i` of a tuple variant, bound as `field{i}`. */
  function TupleVariantSlot(f: UnnamedField<InspectArgs>, i: nat): (r: Option<InspectCall>)
    ensures r.None? <==> f.attrs.Success? && f.attrs.value.hidden
    ensures f.attrs.Failure? ==> r == Some(FieldError(f.attrs.error))
    ensures r.Some? && f.attrs.Success? ==>
      r.value == FieldCall(Bound(TupleBinding(i)), None, f.ty, f.attrs.value, "Field " + NatToDecimal(i))
  {
    match f.attrs
    case Failure(msg) => Some(FieldError(msg))
    case Success(a) => if a.hidden then None else Some(FieldCall(Bound(TupleBinding(i)), None, f.ty, a, "Field " + NatToDecimal(i)))
  }

  /** As written: the fragment a tuple-variant field emits when its
      attributes fail, `#ident: { compile_error!(#msg); }` with the
      field's absent identifier; nothing when they parse. */
  function TupleVariantErrorAsWritten(f: UnnamedField<InspectArgs>): (e: Option<LabelledError>)
    ensures e.Some? <==> f.attrs.Failure?
    ensures e.Some? ==> e.value.message == f.attrs.error
  {
    match f.attrs
    case Failure(msg) => Some(LabelledError(None, msg))
    case Success(_) => None
  }

  /** As written, a failing tuple-variant field opens its fragment with a
      bare `:` inside the variant's arm, where the intended fragment is the
      field's own `compile_error!` with the same message. */
  lemma TupleVariantErrorMalformed(f: UnnamedField<InspectArgs>, i: nat)
    requires f.attrs.Failure?
    ensures TupleVariantErrorAsWritten(f).Some? && OpensWithColon(TupleVariantErrorAsWritten(f).value)
    ensures TupleVariantSlot(f, i) == Some(FieldError(TupleVariantErrorAsWritten(f).value.message))
  {
  }

  /** The fragment of a field of a struct variant, bound by its name. */
  function StructVariantSlot(f: NamedField<InspectArgs>): (r: Option<InspectCall>)
    ensures r.None? <==> f.attrs.Success? && f.attrs.value.hidden
    ensures f.attrs.Failure? ==> r == Some(FieldError(f.attrs.error))
    ensures r.Some? && f.attrs.Success? ==> r.value == FieldCall(Bound(f.name), Some(f.name), f.ty, f.attrs.value, "")
  {
    match f.attrs
    case Failure(msg) => Some(FieldError(msg))
    case Success(a) => if a.hidden then None else Some(FieldCall(Bound(f.name), Some(f.name), f.ty, a, ""))
  }

  /** The pattern entry of a struct-variant field as the source writes it:
      a hidden field is left out of the pattern altogether. */
  function NamedBindingAsWritten(f: NamedField<InspectArgs>): (r: Option<FieldBinding>)
    ensures r.None? <==> f.attrs.Success? && f.attrs.value.hidden
    ensures r.Some? ==> r.value == BindField(f.name)
  {
    if f.attrs.Success? && f.attrs.value.hidden then None else Some(BindField(f.name))
  }

  /** The pattern entry as intended: a hidden field is still mentioned,
      as `name: _`. */
  function NamedBinding(f: NamedField<InspectArgs>): (b: FieldBinding)
    ensures BindingField(b) == f.name
    ensures b.IgnoreField? <==> f.attrs.Success? && f.attrs.value.hidden
  {
    if f.attrs.Success? && f.attrs.value.hidden then IgnoreField(f.name) else BindField(f.name)
  }

  /** The field-editing arm of a struct variant, as written. */
  function StructVariantContentAsWritten(ident: string, fs: seq<NamedField<InspectArgs>>): ContentArm<InspectCall> {
    ContentArm(StructPattern(ident, BindingsAsWritten(fs)),
               Flatten(seq(|fs|, i requires 0 <= i < |fs| => StructVariantSlot(fs[i]))))
  }

  /** The entries of a struct-variant pattern, as written. */
  function BindingsAsWritten(fs: seq<NamedField<InspectArgs>>): seq<FieldBinding> {
    Flatten(seq(|fs|, i requires 0 <= i < |fs| => NamedBindingAsWritten(fs[i])))
  }

  /** The unit, unnamed and named variant builders, with the intended
      struct-variant pattern. The label is always the identifier. */
  function VariantCodeOf(v: Variant<InspectArgs>): (c: VariantCode)
    ensures c.text.TextArm? && c.content.ContentArm?
    ensures c.text.caption == v.ident && c.select.caption == v.ident
    ensures v.fields.UnitFields? ==> c.select.ctor == UnitCtor(v.ident) && c.content.calls == []
    ensures v.fields.UnnamedFields? ==> c.select.ctor == TupleCtor(v.ident, |v.fields.unnamed|)
    ensures v.fields.NamedFields? ==> c.select.ctor == StructCtor(v.ident, FieldNames(v.fields.named))
    ensures c.text.pattern.variant == v.ident && c.content.pattern.variant == v.ident
  {
    var caption := v.ident;
    match v.fields
    case UnitFields =>
      VariantCode(TextArm(UnitPattern(v.ident), caption), SelectBlock(UnitCtor(v.ident), caption),
                  ContentArm(UnitPattern(v.ident), []))
    case UnnamedFields(fs) =>
      VariantCode(TextArm(TuplePattern(v.ident, Wildcards(|fs|)), caption),
                  SelectBlock(TupleCtor(v.ident, |fs|), caption),
                  ContentArm(TuplePattern(v.ident, TupleBindings(|fs|)),
                             Flatten(seq(|fs|, i requires 0 <= i < |fs| => TupleVariantSlot(fs[i], i)))))
    case NamedFields(fs) =>
      VariantCode(TextArm(StructPattern(v.ident, IgnoreAll(FieldNames(fs))), caption),
                  SelectBlock(StructCtor(v.ident, FieldNames(fs)), caption),
                  ContentArm(StructPattern(v.ident, seq(|fs|, i requires 0 <= i < |fs| => NamedBinding(fs[i]))),
                             Flatten(seq(|fs|, i requires 0 <= i < |fs| => StructVariantSlot(fs[i])))))
  }

  /** Both match arms of every variant are patterns Rust accepts for it. */
  lemma VariantPatternsFit(v: Variant<InspectArgs>)
    ensures PatternFits(VariantCodeOf(v).text.pattern, v.fields)
    ensures PatternFits(VariantCodeOf(v).content.pattern, v.fields)
  {
    if v.fields.NamedFields? {
      var fs := v.fields.named;
      var names := FieldNames(fs);
      var bs := seq(|fs|, i requires 0 <= i < |fs| => NamedBinding(fs[i]));
      assert forall i :: 0 <= i < |names| ==> BindingField(bs[i]) == names[i];
      assert forall i :: 0 <= i < |names| ==> BindingField(IgnoreAll(names)[i]) == names[i];
    }
  }

  /** The intended arm edits the same fields as the arm as written; only
      the pattern differs. */
  lemma StructVariantCallsAgree(ident: string, fs: seq<NamedField<InspectArgs>>)
    ensures VariantCodeOf(Variant(ident, Success(DefaultInspectArgs()), NamedFields(fs))).content.calls ==
            StructVariantContentAsWritten(ident, fs).calls
  {
  }

  /** As written, a struct variant with a hidden field gets a field-editing
      arm that does not mention that field, which Rust rejects (E0027):
      `V { a: u8 }` with `a` hidden gives the pattern `V {}`. */
  lemma HiddenFieldBreaksPattern()
    ensures var hidden := DefaultInspectArgs().(hidden := true);
      var fs := [NamedField("a", OtherType, Success(hidden))];
      !PatternFits(StructVariantContentAsWritten("V", fs).pattern, NamedFields(fs))
  {
    var hidden := DefaultInspectArgs().(hidden := true);
    var fs := [NamedField("a", OtherType, Success(hidden))];
    var slots := seq(|fs|, i requires 0 <= i < |fs| => NamedBindingAsWritten(fs[i]));
    assert slots == [None];
    assert Flatten(slots) == [];
    assert |FieldNames(fs)| == 1;
  }

  /** As written, the arm fits exactly when no field of the variant is
      hidden. */
  lemma StructVariantAsWrittenFits(ident: string, fs: seq<NamedField<InspectArgs>>)
    ensures PatternFits(StructVariantContentAsWritten(ident, fs).pattern, NamedFields(fs)) <==>
            forall i :: 0 <= i < |fs| ==> !(fs[i].attrs.Success? && fs[i].attrs.value.hidden)
  {
    if forall i :: 0 <= i < |fs| ==> !(fs[i].attrs.Success? && fs[i].attrs.value.hidden) {
      BindingsAsWrittenAllVisible(fs);
    } else {
      var i :| 0 <= i < |fs| && fs[i].attrs.Success? && fs[i].attrs.value.hidden;
      BindingsAsWrittenShort(fs, i);
    }
  }

  lemma BindingsAsWrittenAllVisible(fs: seq<NamedField<InspectArgs>>)
    requires forall i :: 0 <= i < |fs| ==> !(fs[i].attrs.Success? && fs[i].attrs.value.hidden)
    ensures StructPatternCovers(FieldNames(fs), BindingsAsWritten(fs))
  {
    var slots := seq(|fs|, i requires 0 <= i < |fs| => NamedBindingAsWritten(fs[i]));
    FlattenAllPresent(slots);
  }

  lemma BindingsAsWrittenShort(fs: seq<NamedField<InspectArgs>>, i: nat)
    requires i < |fs| && fs[i].attrs.Success? && fs[i].attrs.value.hidden
    ensures |BindingsAsWritten(fs)| < |FieldNames(fs)|
  {
    var slots := seq(|fs|, i requires 0 <= i < |fs| => NamedBindingAsWritten(fs[i]));
    FlattenMissingShorter(slots, i);
  }

  /** A list with a missing entry flattens to a shorter list. */
  lemma {:induction false} FlattenMissingShorter<T>(xs: seq<Option<T>>, i: nat)
    requires i < |xs| && xs[i].None?
    ensures |Flatten(xs)| < |xs|
    decreases |xs|
  {
    if i == |xs| - 1 {
      assert xs == xs[..i] + [xs[i]];
      FlattenAppend(xs[..i], [xs[i]]);
      assert Flatten([xs[i]]) == [] by {
        assert [xs[i]][1..] == [];
      }
    } else {
      var init := xs[..|xs| - 1];
      assert init[i] == xs[i];
      FlattenMissingShorter(init, i);
      assert xs == init + [xs[|xs| - 1]];
      FlattenAppend(init, [xs[|xs| - 1]]);
    }
  }

  // ---------------------------------------------------------------------
  // Enums

  datatype EnumCode = EnumCode(texts: seq<TextArm>, selects: seq<SelectBlock>, contents: seq<ContentArm<InspectCall>>)

  /** The variants that produce code: attributes parse and not hidden. */
  function VisibleVariants(vs: seq<Variant<InspectArgs>>): (r: seq<Variant<InspectArgs>>)
    ensures |r| <= |vs|
    ensures forall k :: 0 <= k < |r| ==> r[k].attrs.Success? && !r[k].attrs.value.hidden && r[k] in vs
  {
    if |vs| == 0 then []
    else
      var rest := VisibleVariants(vs[1..]);
      if vs[0].attrs.Success? && !vs[0].attrs.value.hidden then [vs[0]] + rest else rest
  }

  /** A variant is kept exactly when it is one of the enum's, parses and is
      not hidden. */
  lemma {:induction false} VisibleVariantsMembers(vs: seq<Variant<InspectArgs>>, v: Variant<InspectArgs>)
    ensures v in VisibleVariants(vs) <==> v in vs && v.attrs.Success? && !v.attrs.value.hidden
    decreases |vs|
  {
    if |vs| > 0 {
      VisibleVariantsMembers(vs[1..], v);
      assert vs == [vs[0]] + vs[1..];
    }
  }

  /** The kept variants keep their order: keeping distributes over
      concatenation, and a single variant is kept or dropped whole. */
  lemma {:induction false} VisibleVariantsAppend(a: seq<Variant<InspectArgs>>, b: seq<Variant<InspectArgs>>)
    ensures VisibleVariants(a + b) == VisibleVariants(a) + VisibleVariants(b)
    ensures |a| == 1 ==> VisibleVariants(a) == if a[0].attrs.Success? && !a[0].attrs.value.hidden then a else []
    decreases |a|
  {
    if |a| > 0 {
      assert (a + b)[1..] == a[1..] + b;
      assert (a + b)[0] == a[0];
      VisibleVariantsAppend(a[1..], b);
      if |a| == 1 {
        assert a[1..] == [];
        assert [a[0]] == a;
      }
    } else {
      assert a + b == b;
    }
  }

  predicate HasHidden(vs: seq<Variant<InspectArgs>>) {
    exists i :: 0 <= i < |vs| && vs[i].attrs.Success? && vs[i].attrs.value.hidden
  }

  /** The loop of `get_code_for_enum`: the first variant whose attributes
      fail replaces the whole enum code by its `compile_error!`, hidden
      variants are skipped. */
  function EnumVariantCodes(vs: seq<Variant<InspectArgs>>): (r: Result<seq<VariantCode>, string>)
    ensures r.Failure? <==> exists i :: 0 <= i < |vs| && vs[i].attrs.Failure?
    ensures r.Failure? ==> (exists i :: 0 <= i < |vs| && vs[i].attrs == Failure(r.error) &&
                                        forall j :: 0 <= j < i ==> vs[j].attrs.Success?)
    ensures r.Success? ==> |r.value| == |VisibleVariants(vs)|
    ensures r.Success? ==> forall k :: 0 <= k < |r.value| ==> r.value[k] == VariantCodeOf(VisibleVariants(vs)[k])
  {
    if |vs| == 0 then Success([])
    else
      match vs[0].attrs
      case Failure(msg) => Failure(msg)
      case Success(a) =>
        var rest := EnumVariantCodes(vs[1..]);
        VariantFailuresShift(vs);
        if rest.Failure? then
          VariantFirstFailureShift(vs, rest.error);
          Failure(rest.error)
        else if a.hidden then rest
        else Success([VariantCodeOf(vs[0])] + rest.value)
  }

  /** `get_code_for_enum`: the visible variants' fragments, with wildcard
      arms appended when a variant is hidden. */
  function EnumCodeOf(vs: seq<Variant<InspectArgs>>): (r: Result<EnumCode, string>)
    ensures r.Failure? <==> exists i :: 0 <= i < |vs| && vs[i].attrs.Failure?
    ensures r.Failure? ==> (exists i :: 0 <= i < |vs| && vs[i].attrs == Failure(r.error) &&
                                        forall j :: 0 <= j < i ==> vs[j].attrs.Success?)
    ensures r.Success? ==> |r.value.selects| == |VisibleVariants(vs)|
    ensures r.Success? ==> |r.value.texts| == |r.value.contents| == |VisibleVariants(vs)| + (if HasHidden(vs) then 1 else 0)
  {
    match EnumVariantCodes(vs)
    case Failure(msg) => Failure(msg)
    case Success(codes) =>
      var wild := HasHidden(vs);
      Success(EnumCode(
        seq(|codes|, k requires 0 <= k < |codes| => codes[k].text) + (if wild then [TextWildcard] else []),
        seq(|codes|, k requires 0 <= k < |codes| => codes[k].select),
        seq(|codes|, k requires 0 <= k < |codes| => codes[k].content) + (if wild then [ContentWildcard] else [])))
  }

  /** Wildcard arms appear exactly when some variant is hidden, as the last
      arm of both matches. */
  lemma EnumArms(vs: seq<Variant<InspectArgs>>)
    requires EnumCodeOf(vs).Success?
    ensures var code := EnumCodeOf(vs).value;
      (TextWildcard in code.texts <==> HasHidden(vs)) &&
      (ContentWildcard in code.contents <==> HasHidden(vs)) &&
      (HasHidden(vs) ==> code.texts[|code.texts| - 1] == TextWildcard && code.contents[|code.contents| - 1] == ContentWildcard)
  {
    var codes := EnumVariantCodes(vs).value;
    forall j | 0 <= j < |codes|
      ensures codes[j].text != TextWildcard && codes[j].content != ContentWildcard
    {
      assert codes[j] == VariantCodeOf(VisibleVariants(vs)[j]);
    }
    assert TextWildcard !in seq(|codes|, j requires 0 <= j < |codes| => codes[j].text);
    assert ContentWildcard !in seq(|codes|, j requires 0 <= j < |codes| => codes[j].content);
  }

  /** The arms of the k-th visible variant show its identifier and fit it. */
  lemma EnumArmsFit(vs: seq<Variant<InspectArgs>>, k: nat)
    requires EnumCodeOf(vs).Success?
    requires k < |VisibleVariants(vs)|
    ensures var v := VisibleVariants(vs)[k];
      var code := EnumCodeOf(vs).value;
      code.texts[k].TextArm? && code.texts[k].caption == v.ident && code.contents[k].ContentArm? &&
      PatternFits(code.texts[k].pattern, v.fields) && PatternFits(code.contents[k].pattern, v.fields)
  {
    VariantPatternsFit(VisibleVariants(vs)[k]);
  }

  // ---------------------------------------------------------------------
  // `get_code_for_data` and the derive entry point

  datatype BodyCode =
    | NoCode
    | FieldEditors(calls: seq<InspectCall>)
    | EnumEditor(code: EnumCode)
    | BodyError(message: string)
    | MacroAbort                             // `unimplemented!` for unions

  /** `get_code_for_data`. */
  function DataCode(data: Data<InspectArgs>): (b: BodyCode)
    ensures data.UnionData? <==> b.MacroAbort?
    ensures data.StructData? && data.fields.UnitFields? ==> b == NoCode
    ensures data.StructData? && data.fields.NamedFields? ==> b == FieldEditors(NamedStructCalls(data.fields.named))
    ensures data.StructData? && data.fields.UnnamedFields? ==>
      var fs := data.fields.unnamed;
      (b.BodyError? <==> exists i :: 0 <= i < |fs| && fs[i].attrs.Failure?) &&
      (b.BodyError? ==> exists i :: 0 <= i < |fs| && fs[i].attrs == Failure(b.message) &&
                                    forall j :: 0 <= j < i ==> fs[j].attrs.Success?) &&
      (b.FieldEditors? ==> |b.calls| == |fs| && b.calls == UnnamedStructCalls(fs, 0).value)
    ensures data.EnumData? ==>
      var vs := data.variants;
      (b.BodyError? <==> exists i :: 0 <= i < |vs| && vs[i].attrs.Failure?) &&
      (b.BodyError? ==> exists i :: 0 <= i < |vs| && vs[i].attrs == Failure(b.message) &&
                                    forall j :: 0 <= j < i ==> vs[j].attrs.Success?) &&
      (!b.BodyError? ==> EnumCodeOf(vs).Success? && b == EnumEditor(EnumCodeOf(vs).value))
  {
    match data
    case UnionData => MacroAbort
    case EnumData(vs) =>
      (match EnumCodeOf(vs)
       case Failure(msg) => BodyError(msg)
       case Success(code) => EnumEditor(code))
    case StructData(fields) =>
      match fields
      case UnitFields => NoCode
      case NamedFields(fs) => FieldEditors(NamedStructCalls(fs))
      case UnnamedFields(fs) =>
        match UnnamedStructCalls(fs, 0)
        case Failure(msg) => BodyError(msg)
        case Success(calls) => FieldEditors(calls)
  }

  datatype Expansion =
    | Impl(generics: seq<GenericParam>, body: BodyCode)
    | ExpansionAbort

  const InspectBound: string := "egui_inspect::EguiInspect"

  /** `derive_egui_inspect`: an impl of `DefaultEguiInspect` whose type
      parameters carry the `EguiInspect` bound; a union makes the macro
      panic. */
  method Derive(generics: seq<GenericParam>, data: Data<InspectArgs>) returns (e: Expansion)
    ensures data.UnionData? <==> e.ExpansionAbort?
    ensures e.Impl? ==> e.body == DataCode(data) && |e.generics| == |generics|
    ensures e.Impl? ==> forall i :: 0 <= i < |generics| && generics[i].TypeParam? ==>
      e.generics[i] == TypeParam(generics[i].name, generics[i].bounds + [InspectBound])
    ensures e.Impl? ==> forall i :: 0 <= i < |generics| && !generics[i].TypeParam? ==> e.generics[i] == generics[i]
  {
    var bounded := AddTraitBounds(generics, InspectBound);
    var body := DataCode(data);
    if body.MacroAbort? {
      e := ExpansionAbort;
    } else {
      e := Impl(bounded, body);
    }
  }
}

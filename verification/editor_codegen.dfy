/** The code shaping of egui_field_editor_derive/src/lib.rs: what the
    derive emits for execute buttons, for the fields of a struct, and for
    the combo box and field editors of an enum.

    Every field editor goes through `get_function_call` (`FunctionCall` of
    the dispatch module). The runtime wrapping around the emitted fragments
    (collapsing header, indentation, layout widths) is not modelled. */
module EditorCodegen {
  import opened Wrappers
  import opened Text
  import opened Syntax
  import opened Prettify
  import opened EditorAttrs
  import opened EditorDispatch

  // ---------------------------------------------------------------------
  // Execute buttons

  /** `egui_field_editor::add_button(label, tooltip, read_only, ui, ..)`
      whose closure calls `self.f()` (`onSelf`) or `f()`. */
  datatype ButtonCode =
    | ButtonCall(caption: string, tooltip: string, callee: string, onSelf: bool)
    | ButtonError(message: string)

  /** The code of one `execute_btn`. */
  function ExecuteButton(b: ExecuteBtn, lex: Lexer): (c: ButtonCode)
    ensures c.ButtonError? <==> lex(b.fnName).Failure?
    ensures c.ButtonError? ==> c.message == lex(b.fnName).error
    ensures c.ButtonCall? ==> c.callee == lex(b.fnName).value && c.onSelf == b.isMethod
    ensures c.ButtonCall? && b.caption.Some? ==> c.caption == b.caption.value
    ensures c.ButtonCall? && b.caption.None? ==> c.caption == PrettifyName(b.fnName)
    ensures c.ButtonCall? ==> c.tooltip == b.tooltip.GetOr("")
  {
    var caption := b.caption.GetOr(PrettifyName(b.fnName));
    match lex(b.fnName)
    case Failure(msg) => ButtonError(msg)
    case Success(f) => ButtonCall(caption, b.tooltip.GetOr(""), f, b.isMethod)
  }

  /** `get_code_execute_btns`: one fragment per button, in order; a button
      whose function name does not tokenize becomes a `compile_error!` on
      its own and the others are still emitted. */
  function ExecuteButtons(bs: seq<ExecuteBtn>, lex: Lexer): (cs: seq<ButtonCode>)
    ensures |cs| == |bs|
    ensures forall i :: 0 <= i < |bs| ==> cs[i] == ExecuteButton(bs[i], lex)
  {
    seq(|bs|, i requires 0 <= i < |bs| => ExecuteButton(bs[i], lex))
  }

  /** A button written `execute_btn(fn_name = "f")` calls the method
      `self.f()` and carries the prettified function name and no tooltip. */
  lemma ButtonDefaults(fnName: string, lex: Lexer)
    requires lex(fnName).Success?
    ensures var c := ExecuteButton(ExecuteBtnFromArgs(fnName, None, None, None), lex);
      c.ButtonCall? && c.onSelf && c.tooltip == "" && c.caption == PrettifyName(fnName) && '_' !in c.caption
  {
    PrettifyNameNoUnderscore(fnName);
  }

  // ---------------------------------------------------------------------
  // One field

  /** The fragment of one field: `compile_error!` when its attributes do
      not parse, nothing when it is hidden, otherwise its editor call with
      the read-only flag of the enclosing variant OR-ed into its own. */
  function FieldCode(attrs: Result<AttributeArgs, string>, access: Access, info: FieldInfo, defaultName: string,
                     inheritedReadOnly: bool, lex: Lexer): (r: Option<EditorCall>)
    ensures attrs.Failure? ==> r == Some(CompileError(attrs.error))
    ensures r.None? <==> attrs.Success? && attrs.value.hidden
    ensures r.Some? && r.value.Call? ==>
      attrs.Success? && r.value.access == access &&
      r.value.readOnlyAttr == (attrs.value.readOnly || inheritedReadOnly) &&
      r.value.caption == FieldCaption(info.ident, attrs.value, defaultName)
  {
    match attrs
    case Failure(msg) => Some(CompileError(msg))
    case Success(a) =>
      if a.hidden then None
      else Some(FunctionCall(access, info, a.(readOnly := a.readOnly || inheritedReadOnly), defaultName, lex))
  }

  /** A field that parses and is not hidden gets exactly the call
      `get_function_call` builds from its own attributes, except that the
      read-only flag also carries the inherited one. */
  lemma FieldCodeIsDispatch(attrs: AttributeArgs, access: Access, info: FieldInfo, defaultName: string, inherited: bool, lex: Lexer)
    requires !attrs.hidden
    ensures var own := FunctionCall(access, info, attrs, defaultName, lex);
      var r := FieldCode(Success(attrs), access, info, defaultName, inherited, lex);
      r.Some? &&
      (own.Call? ==> r.value == own.(readOnlyAttr := attrs.readOnly || inherited)) &&
      (!own.Call? ==> r.value == own)
  {
  }

  // ---------------------------------------------------------------------
  // Structs

  /** The fragments of the named fields of a struct, one per field. */
  function NamedStructSlots(fs: seq<NamedField<AttributeArgs>>, lex: Lexer): (r: seq<Option<EditorCall>>)
    ensures |r| == |fs|
    ensures forall i :: 0 <= i < |fs| ==>
      r[i] == FieldCode(fs[i].attrs, SelfField(fs[i].name), FieldInfo(Some(fs[i].name), fs[i].ty), "", false, lex)
  {
    seq(|fs|, i requires 0 <= i < |fs| =>
      FieldCode(fs[i].attrs, SelfField(fs[i].name), FieldInfo(Some(fs[i].name), fs[i].ty), "", false, lex))
  }

  /** `get_code_for_struct_named_fields`: every field edits `self.name`;
      a field whose attributes fail becomes its own `compile_error!`. */
  function NamedStructCalls(fs: seq<NamedField<AttributeArgs>>, lex: Lexer): (r: seq<EditorCall>)
    ensures |r| <= |fs|
    ensures forall k :: 0 <= k < |r| && r[k].Call? ==> r[k].access.SelfField?
  {
    FlattenMembers(NamedStructSlots(fs, lex));
    Flatten(NamedStructSlots(fs, lex))
  }

  /** A hidden named field changes nothing in the generated struct code. */
  lemma NamedStructHiddenIgnored(before: seq<NamedField<AttributeArgs>>, h: NamedField<AttributeArgs>,
                                 after: seq<NamedField<AttributeArgs>>, lex: Lexer)
    requires h.attrs.Success? && h.attrs.value.hidden
    ensures NamedStructCalls(before + [h] + after, lex) == NamedStructCalls(before + after, lex)
  {
    NamedStructSlotsAppend(before + [h], after, lex);
    NamedStructSlotsAppend(before, [h], lex);
    NamedStructSlotsAppend(before, after, lex);
    assert NamedStructSlots([h], lex) == [None];
    FlattenDropNone(NamedStructSlots(before, lex), NamedStructSlots(after, lex));
  }

  lemma NamedStructSlotsAppend(a: seq<NamedField<AttributeArgs>>, b: seq<NamedField<AttributeArgs>>, lex: Lexer)
    ensures NamedStructSlots(a + b, lex) == NamedStructSlots(a, lex) + NamedStructSlots(b, lex)
  {
  }

  /** With every field parsing and none hidden, field `i` gets the i-th call,
      labelled from its own name. */
  lemma NamedStructAllVisible(fs: seq<NamedField<AttributeArgs>>, lex: Lexer)
    requires forall i :: 0 <= i < |fs| ==> fs[i].attrs.Success? && !fs[i].attrs.value.hidden
    ensures |NamedStructCalls(fs, lex)| == |fs|
    ensures forall i :: 0 <= i < |fs| ==>
      NamedStructCalls(fs, lex)[i] ==
        FunctionCall(SelfField(fs[i].name), FieldInfo(Some(fs[i].name), fs[i].ty), fs[i].attrs.value, "", lex)
  {
    var slots := NamedStructSlots(fs, lex);
    forall i | 0 <= i < |fs|
      ensures slots[i].Some?
      ensures slots[i].value == FunctionCall(SelfField(fs[i].name), FieldInfo(Some(fs[i].name), fs[i].ty), fs[i].attrs.value, "", lex)
    {
      var a := fs[i].attrs.value;
      assert a.(readOnly := a.readOnly || false) == a;
    }
    FlattenAllPresent(slots);
  }

  /** The fragment of tuple field `i` of a struct: it edits `self.i` and
      its default name is `Field i`. */
  function TupleStructSlot(f: UnnamedField<AttributeArgs>, i: nat, lex: Lexer): Option<EditorCall> {
    FieldCode(f.attrs, SelfIndex(i), FieldInfo(None, f.ty), "Field " + NatToDecimal(i), false, lex)
  }

  function TupleStructSlots(fs: seq<UnnamedField<AttributeArgs>>, lex: Lexer): (r: seq<Option<EditorCall>>)
    ensures |r| == |fs|
    ensures forall i :: 0 <= i < |fs| ==> r[i] == TupleStructSlot(fs[i], i, lex)
  {
    seq(|fs|, i requires 0 <= i < |fs| => TupleStructSlot(fs[i], i, lex))
  }

  /** `get_code_for_struct_unnamed_fields`: the fields are visited in
      order and the first one whose attributes fail aborts the whole struct
      with its message; hidden fields are skipped and keep their index. */
  method UnnamedStructCalls(fs: seq<UnnamedField<AttributeArgs>>, lex: Lexer) returns (r: Result<seq<EditorCall>, string>)
    ensures r.Failure? <==> exists i :: 0 <= i < |fs| && fs[i].attrs.Failure?
    ensures r.Failure? ==> (exists i :: 0 <= i < |fs| && fs[i].attrs == Failure(r.error) &&
                                        forall j :: 0 <= j < i ==> fs[j].attrs.Success?)
    ensures r.Success? ==> r.value == Flatten(TupleStructSlots(fs, lex))
  {
    var calls: seq<EditorCall> := [];
    var i := 0;
    while i < |fs|
      invariant 0 <= i <= |fs|
      invariant forall j :: 0 <= j < i ==> fs[j].attrs.Success?
      invariant calls == TupleCallsUpTo(fs, lex, i)
    {
      if fs[i].attrs.Failure? {
        return Failure(fs[i].attrs.error);
      }
      var a := fs[i].attrs.value;
      if !a.hidden {
        calls := calls + [FunctionCall(SelfIndex(i), FieldInfo(None, fs[i].ty), a, "Field " + NatToDecimal(i), lex)];
      }
      i := i + 1;
    }
    TupleCallsUpToSlots(fs, lex, |fs|);
    assert TupleStructSlots(fs, lex)[..|fs|] == TupleStructSlots(fs, lex);
    return Success(calls);
  }

  /** The calls that loop has pushed after visiting the first `n` fields,
      all of which parse. */
  function TupleCallsUpTo(fs: seq<UnnamedField<AttributeArgs>>, lex: Lexer, n: nat): seq<EditorCall>
    requires n <= |fs|
    requires forall j :: 0 <= j < n ==> fs[j].attrs.Success?
    decreases n
  {
    if n == 0 then []
    else
      var a := fs[n - 1].attrs.value;
      TupleCallsUpTo(fs, lex, n - 1) +
        (if a.hidden then [] else [FunctionCall(SelfIndex(n - 1), FieldInfo(None, fs[n - 1].ty), a, "Field " + NatToDecimal(n - 1), lex)])
  }

  /** Those calls are the fragments of the first `n` fields. */
  lemma {:induction false} TupleCallsUpToSlots(fs: seq<UnnamedField<AttributeArgs>>, lex: Lexer, n: nat)
    requires n <= |fs|
    requires forall j :: 0 <= j < n ==> fs[j].attrs.Success?
    ensures TupleCallsUpTo(fs, lex, n) == Flatten(TupleStructSlots(fs, lex)[..n])
    decreases n
  {
    if n > 0 {
      TupleCallsUpToSlots(fs, lex, n - 1);
      FlattenPrefixStep(TupleStructSlots(fs, lex), n - 1);
      TupleStructSlotValue(fs, lex, n - 1);
    }
  }

  /** The fragment of a parsed tuple field is its `get_function_call`, or
      nothing when it is hidden. */
  lemma TupleStructSlotValue(fs: seq<UnnamedField<AttributeArgs>>, lex: Lexer, i: nat)
    requires i < |fs| && fs[i].attrs.Success?
    ensures var a := fs[i].attrs.value;
      TupleStructSlots(fs, lex)[i] == if a.hidden then None
        else Some(FunctionCall(SelfIndex(i), FieldInfo(None, fs[i].ty), a, "Field " + NatToDecimal(i), lex))
  {
    var a := fs[i].attrs.value;
    assert a.(readOnly := a.readOnly || false) == a;
  }

  /** In a tuple struct, every emitted call edits `self.i` of a visible
      field `i` and, unless renamed, is labelled `Field  i`. */
  lemma TupleStructCallsIndexed(fs: seq<UnnamedField<AttributeArgs>>, lex: Lexer, c: EditorCall)
    requires c in Flatten(TupleStructSlots(fs, lex)) && c.Call?
    ensures c.access.SelfIndex? && c.access.index < |fs|
    ensures var i := c.access.index;
      fs[i].attrs.Success? && !fs[i].attrs.value.hidden &&
      (fs[i].attrs.value.name.None? ==> c.caption == "Field  " + NatToDecimal(i))
  {
    var slots := TupleStructSlots(fs, lex);
    FlattenMembers(slots);
    var k :| 0 <= k < |Flatten(slots)| && Flatten(slots)[k] == c;
    var i :| 0 <= i < |slots| && slots[i] == Some(c);
    if fs[i].attrs.value.name.None? {
      TupleFieldCaption(fs[i].attrs.value, i);
    }
  }

  // ---------------------------------------------------------------------
  // Enum variants

  /** The three fragments a visible variant contributes: its arm of the
      selected-text match, its `selectable_value` block, and its arm of the
      field-editing match. */
  datatype VariantCode = VariantCode(text: TextArm, select: SelectBlock, content: ContentArm<EditorCall>)

  /** The label of a variant: its `name` attribute, else its identifier as
      written (not prettified). */
  function VariantCaption(v: Variant<AttributeArgs>, a: AttributeArgs): (c: string)
    ensures a.name.Some? ==> c == a.name.value
    ensures a.name.None? ==> c == v.ident
  {
    a.name.GetOr(v.ident)
  }

  /** Fragments of the fields of a tuple variant, bound as `field0, ..`;
      the variant's read-only flag is inherited. */
  function TupleVariantSlots(fs: seq<UnnamedField<AttributeArgs>>, ro: bool, lex: Lexer): (r: seq<Option<EditorCall>>)
    ensures |r| == |fs|
    ensures forall i :: 0 <= i < |fs| ==>
      r[i] == FieldCode(fs[i].attrs, Bound(TupleBinding(i)), FieldInfo(None, fs[i].ty), "Field " + NatToDecimal(i), ro, lex)
  {
    seq(|fs|, i requires 0 <= i < |fs| =>
      FieldCode(fs[i].attrs, Bound(TupleBinding(i)), FieldInfo(None, fs[i].ty), "Field " + NatToDecimal(i), ro, lex))
  }

  /** Fragments of the fields of a struct variant, bound by name. */
  function StructVariantSlots(fs: seq<NamedField<AttributeArgs>>, ro: bool, lex: Lexer): (r: seq<Option<EditorCall>>)
    ensures |r| == |fs|
    ensures forall i :: 0 <= i < |fs| ==>
      r[i] == FieldCode(fs[i].attrs, Bound(fs[i].name), FieldInfo(Some(fs[i].name), fs[i].ty), "", ro, lex)
  {
    seq(|fs|, i requires 0 <= i < |fs| =>
      FieldCode(fs[i].attrs, Bound(fs[i].name), FieldInfo(Some(fs[i].name), fs[i].ty), "", ro, lex))
  }

  /** The pattern entry of a struct-variant field: a hidden field is
      ignored with `name: _`; every other field (also one whose attributes
      failed) is bound. */
  function NamedBinding(f: NamedField<AttributeArgs>): (b: FieldBinding)
    ensures BindingField(b) == f.name
    ensures b.IgnoreField? <==> f.attrs.Success? && f.attrs.value.hidden
  {
    if f.attrs.Success? && f.attrs.value.hidden then IgnoreField(f.name) else BindField(f.name)
  }

  function NamedBindings(fs: seq<NamedField<AttributeArgs>>): (r: seq<FieldBinding>)
    ensures |r| == |fs|
    ensures forall i :: 0 <= i < |fs| ==> r[i] == NamedBinding(fs[i])
  {
    seq(|fs|, i requires 0 <= i < |fs| => NamedBinding(fs[i]))
  }

  /** The unit, unnamed and named variant block builders. */
  function VariantCodeOf(v: Variant<AttributeArgs>, lex: Lexer): (c: VariantCode)
    requires v.attrs.Success?
    ensures c.text.TextArm? && c.content.ContentArm?
    ensures c.text.caption == VariantCaption(v, v.attrs.value) && c.select.caption == c.text.caption
    ensures v.fields.UnitFields? ==> c.select.ctor == UnitCtor(v.ident) && c.content.calls == []
    ensures v.fields.UnnamedFields? ==> c.select.ctor == TupleCtor(v.ident, |v.fields.unnamed|)
    ensures v.fields.NamedFields? ==> c.select.ctor == StructCtor(v.ident, FieldNames(v.fields.named))
    ensures c.text.pattern.variant == v.ident && c.content.pattern.variant == v.ident
  {
    var caption := VariantCaption(v, v.attrs.value);
    var ro := v.attrs.value.readOnly;
    match v.fields
    case UnitFields =>
      VariantCode(TextArm(UnitPattern(v.ident), caption), SelectBlock(UnitCtor(v.ident), caption),
                  ContentArm(UnitPattern(v.ident), []))
    case UnnamedFields(fs) =>
      VariantCode(TextArm(TuplePattern(v.ident, Wildcards(|fs|)), caption),
                  SelectBlock(TupleCtor(v.ident, |fs|), caption),
                  ContentArm(TuplePattern(v.ident, TupleBindings(|fs|)), Flatten(TupleVariantSlots(fs, ro, lex))))
    case NamedFields(fs) =>
      VariantCode(TextArm(StructPattern(v.ident, IgnoreAll(FieldNames(fs))), caption),
                  SelectBlock(StructCtor(v.ident, FieldNames(fs)), caption),
                  ContentArm(StructPattern(v.ident, NamedBindings(fs)), Flatten(StructVariantSlots(fs, ro, lex))))
  }

  /** Both match arms of a variant are patterns Rust accepts for it: every
      field is mentioned once, in a struct pattern by its own name. */
  lemma VariantPatternsFit(v: Variant<AttributeArgs>, lex: Lexer)
    requires v.attrs.Success?
    ensures PatternFits(VariantCodeOf(v, lex).text.pattern, v.fields)
    ensures PatternFits(VariantCodeOf(v, lex).content.pattern, v.fields)
  {
    if v.fields.NamedFields? {
      var names := FieldNames(v.fields.named);
      var bs := NamedBindings(v.fields.named);
      assert forall i :: 0 <= i < |names| ==> BindingField(bs[i]) == names[i];
      assert forall i :: 0 <= i < |names| ==> BindingField(IgnoreAll(names)[i]) == names[i];
    }
  }

  /** Read-only inheritance in a tuple variant: every call edits the
      binding `field{i}` of a visible field `i`, and is read-only exactly
      when that field or the variant is. */
  lemma TupleVariantReadOnly(fs: seq<UnnamedField<AttributeArgs>>, ro: bool, lex: Lexer, c: EditorCall)
    requires c in Flatten(TupleVariantSlots(fs, ro, lex)) && c.Call?
    ensures exists i :: (0 <= i < |fs| && fs[i].attrs.Success? && !fs[i].attrs.value.hidden &&
                         c.access == Bound(TupleBinding(i)) && c.readOnlyAttr == (fs[i].attrs.value.readOnly || ro))
  {
    var slots := TupleVariantSlots(fs, ro, lex);
    FlattenMembers(slots);
    var k :| 0 <= k < |Flatten(slots)| && Flatten(slots)[k] == c;
    var i :| 0 <= i < |slots| && slots[i] == Some(c);
    assert slots[i] == FieldCode(fs[i].attrs, Bound(TupleBinding(i)), FieldInfo(None, fs[i].ty), "Field " + NatToDecimal(i), ro, lex);
  }

  /** Read-only inheritance in a struct variant: every call edits the
      binding of a visible field, read-only exactly when that field or the
      variant is. */
  lemma StructVariantReadOnly(fs: seq<NamedField<AttributeArgs>>, ro: bool, lex: Lexer, c: EditorCall)
    requires c in Flatten(StructVariantSlots(fs, ro, lex)) && c.Call?
    ensures exists i :: (0 <= i < |fs| && fs[i].attrs.Success? && !fs[i].attrs.value.hidden &&
                         c.access == Bound(fs[i].name) && c.readOnlyAttr == (fs[i].attrs.value.readOnly || ro))
  {
    var slots := StructVariantSlots(fs, ro, lex);
    FlattenMembers(slots);
    var k :| 0 <= k < |Flatten(slots)| && Flatten(slots)[k] == c;
    var i :| 0 <= i < |slots| && slots[i] == Some(c);
    assert slots[i] == FieldCode(fs[i].attrs, Bound(fs[i].name), FieldInfo(Some(fs[i].name), fs[i].ty), "", ro, lex);
  }

  /** A read-only variant makes every editor in its arm read-only. */
  lemma ReadOnlyVariantFields(v: Variant<AttributeArgs>, lex: Lexer, c: EditorCall)
    requires v.attrs.Success? && v.attrs.value.readOnly
    requires c in VariantCodeOf(v, lex).content.calls && c.Call?
    ensures c.readOnlyAttr
  {
    match v.fields
    case UnitFields =>
    case UnnamedFields(fs) => TupleVariantReadOnly(fs, true, lex, c);
    case NamedFields(fs) => StructVariantReadOnly(fs, true, lex, c);
  }

  // ---------------------------------------------------------------------
  // Enums

  /** The code of a whole enum: the selected-text arms, the selection
      blocks and the field-editing arms. */
  datatype EnumCode = EnumCode(texts: seq<TextArm>, selects: seq<SelectBlock>, contents: seq<ContentArm<EditorCall>>)

  /** The variants that produce code: attributes parse and not hidden. */
  function VisibleVariants(vs: seq<Variant<AttributeArgs>>): (r: seq<Variant<AttributeArgs>>)
    ensures |r| <= |vs|
    ensures forall k :: 0 <= k < |r| ==> r[k].attrs.Success? && !r[k].attrs.value.hidden && r[k] in vs
  {
    if |vs| == 0 then []
    else
      var rest := VisibleVariants(vs[1..]);
      if vs[0].attrs.Success? && !vs[0].attrs.value.hidden then [vs[0]] + rest else rest
  }

  /** A variant is kept exactly when it is one of the enum's, parses and is
      not hidden. */
  lemma {:induction false} VisibleVariantsMembers(vs: seq<Variant<AttributeArgs>>, v: Variant<AttributeArgs>)
    ensures v in VisibleVariants(vs) <==> v in vs && v.attrs.Success? && !v.attrs.value.hidden
    decreases |vs|
  {
    if |vs| > 0 {
      VisibleVariantsMembers(vs[1..], v);
      assert vs == [vs[0]] + vs[1..];
    }
  }

  /** The kept variants keep their order: keeping distributes over
      concatenation, and a single variant is kept or dropped whole. */
  lemma {:induction false} VisibleVariantsAppend(a: seq<Variant<AttributeArgs>>, b: seq<Variant<AttributeArgs>>)
    ensures VisibleVariants(a + b) == VisibleVariants(a) + VisibleVariants(b)
    ensures |a| == 1 ==> VisibleVariants(a) == if a[0].attrs.Success? && !a[0].attrs.value.hidden then a else []
    decreases |a|
  {
    if |a| > 0 {
      assert (a + b)[1..] == a[1..] + b;
      assert (a + b)[0] == a[0];
      VisibleVariantsAppend(a[1..], b);
      if |a| == 1 {
        assert a[1..] == [];
        assert [a[0]] == a;
      }
    } else {
      assert a + b == b;
    }
  }

  /** Whether some variant parses and is hidden. */
  predicate HasHidden(vs: seq<Variant<AttributeArgs>>) {
    exists i :: 0 <= i < |vs| && vs[i].attrs.Success? && vs[i].attrs.value.hidden
  }

  /** The loop of `get_code_for_enum`: variants in order, the first whose
      attributes fail aborts with its message, hidden ones are skipped. */
  function EnumVariantCodes(vs: seq<Variant<AttributeArgs>>, lex: Lexer): (r: Result<seq<VariantCode>, string>)
    ensures r.Failure? <==> exists i :: 0 <= i < |vs| && vs[i].attrs.Failure?
    ensures r.Failure? ==> (exists i :: 0 <= i < |vs| && vs[i].attrs == Failure(r.error) &&
                                        forall j :: 0 <= j < i ==> vs[j].attrs.Success?)
    ensures r.Success? ==> |r.value| == |VisibleVariants(vs)|
    ensures r.Success? ==> forall k :: 0 <= k < |r.value| ==> r.value[k] == VariantCodeOf(VisibleVariants(vs)[k], lex)
  {
    if |vs| == 0 then Success([])
    else
      match vs[0].attrs
      case Failure(msg) => Failure(msg)
      case Success(a) =>
        var rest := EnumVariantCodes(vs[1..], lex);
        VariantFailuresShift(vs);
        if rest.Failure? then
          VariantFirstFailureShift(vs, rest.error);
          Failure(rest.error)
        else if a.hidden then rest
        else Success([VariantCodeOf(vs[0], lex)] + rest.value)
  }

  /** `get_code_for_enum`: the visible variants' fragments, with the
      wildcard arms `_ => ""` and `_ => {}` appended when a variant is
      hidden (the matches would not be exhaustive otherwise). */
  function EnumCodeOf(vs: seq<Variant<AttributeArgs>>, lex: Lexer): (r: Result<EnumCode, string>)
    ensures r.Failure? <==> exists i :: 0 <= i < |vs| && vs[i].attrs.Failure?
    ensures r.Failure? ==> (exists i :: 0 <= i < |vs| && vs[i].attrs == Failure(r.error) &&
                                        forall j :: 0 <= j < i ==> vs[j].attrs.Success?)
    ensures r.Success? ==> |r.value.selects| == |VisibleVariants(vs)|
    ensures r.Success? ==> |r.value.texts| == |r.value.contents| == |VisibleVariants(vs)| + (if HasHidden(vs) then 1 else 0)
  {
    match EnumVariantCodes(vs, lex)
    case Failure(msg) => Failure(msg)
    case Success(codes) =>
      var wild := HasHidden(vs);
      Success(EnumCode(
        seq(|codes|, k requires 0 <= k < |codes| => codes[k].text) + (if wild then [TextWildcard] else []),
        seq(|codes|, k requires 0 <= k < |codes| => codes[k].select),
        seq(|codes|, k requires 0 <= k < |codes| => codes[k].content) + (if wild then [ContentWildcard] else [])))
  }

  /** Wildcard arms appear exactly when some variant is hidden, and then as
      the last arm of both matches. */
  lemma EnumWildcards(vs: seq<Variant<AttributeArgs>>, lex: Lexer)
    requires EnumCodeOf(vs, lex).Success?
    ensures var code := EnumCodeOf(vs, lex).value;
      (TextWildcard in code.texts <==> HasHidden(vs)) &&
      (ContentWildcard in code.contents <==> HasHidden(vs)) &&
      (HasHidden(vs) ==> code.texts[|code.texts| - 1] == TextWildcard && code.contents[|code.contents| - 1] == ContentWildcard)
  {
    var codes := EnumVariantCodes(vs, lex).value;
    var code := EnumCodeOf(vs, lex).value;
    forall k | 0 <= k < |codes|
      ensures codes[k].text != TextWildcard && codes[k].content != ContentWildcard
    {
      assert codes[k] == VariantCodeOf(VisibleVariants(vs)[k], lex);
    }
    assert TextWildcard !in seq(|codes|, k requires 0 <= k < |codes| => codes[k].text);
    assert ContentWildcard !in seq(|codes|, k requires 0 <= k < |codes| => codes[k].content);
  }

  /** The selection block of the k-th visible variant builds that variant
      with defaults for all of its fields (hidden ones included), under
      its label. */
  lemma EnumSelectDefaults(vs: seq<Variant<AttributeArgs>>, lex: Lexer, k: nat)
    requires EnumCodeOf(vs, lex).Success?
    requires k < |VisibleVariants(vs)|
    ensures var v := VisibleVariants(vs)[k];
      var s := EnumCodeOf(vs, lex).value.selects[k];
      s.caption == VariantCaption(v, v.attrs.value) &&
      (v.fields.UnnamedFields? ==> s.ctor == TupleCtor(v.ident, |v.fields.unnamed|)) &&
      (v.fields.NamedFields? ==> s.ctor == StructCtor(v.ident, FieldNames(v.fields.named)))
  {
  }

  /** Every non-wildcard arm of either match is a pattern Rust accepts for
      the variant it names. */
  lemma EnumArmsFit(vs: seq<Variant<AttributeArgs>>, lex: Lexer, k: nat)
    requires EnumCodeOf(vs, lex).Success?
    requires k < |VisibleVariants(vs)|
    ensures var v := VisibleVariants(vs)[k];
      var code := EnumCodeOf(vs, lex).value;
      code.texts[k].TextArm? && code.contents[k].ContentArm? &&
      PatternFits(code.texts[k].pattern, v.fields) && PatternFits(code.contents[k].pattern, v.fields)
  {
    VariantPatternsFit(VisibleVariants(vs)[k], lex);
  }

  // ---------------------------------------------------------------------
  // `get_code_for_data` and the derive entry point

  /** The body of the generated `inspect_with_custom_id`. */
  datatype BodyCode =
    | NoCode                                 // unit struct
    | FieldEditors(calls: seq<EditorCall>)   // named or tuple struct
    | EnumEditor(code: EnumCode)
    | BodyError(message: string)             // a single `compile_error!`
    | MacroAbort                             // `unimplemented!` for unions

  /** The message of the first tuple field whose attributes fail, if any. */
  function FirstFieldFailure(fs: seq<UnnamedField<AttributeArgs>>): (r: Option<string>)
    ensures r.None? <==> forall i :: 0 <= i < |fs| ==> fs[i].attrs.Success?
    ensures r.Some? ==> exists i :: 0 <= i < |fs| && fs[i].attrs == Failure(r.value) &&
                                    forall j :: 0 <= j < i ==> fs[j].attrs.Success?
  {
    if |fs| == 0 then None
    else
      match fs[0].attrs
      case Failure(msg) => Some(msg)
      case Success(_) =>
        var rest := FirstFieldFailure(fs[1..]);
        FieldFailuresShift(fs);
        if rest.Some? then
          FieldFirstFailureShift(fs, rest.value);
          rest
        else rest
  }

  /** There is only one first failing field. */
  lemma FirstFieldFailureUnique(fs: seq<UnnamedField<AttributeArgs>>, msg: string)
    requires exists i :: 0 <= i < |fs| && fs[i].attrs == Failure(msg) && forall j :: 0 <= j < i ==> fs[j].attrs.Success?
    ensures FirstFieldFailure(fs) == Some(msg)
  {
    var i :| 0 <= i < |fs| && fs[i].attrs == Failure(msg) && forall j :: 0 <= j < i ==> fs[j].attrs.Success?;
    var r := FirstFieldFailure(fs);
    assert r.Some?;
    var i' :| 0 <= i' < |fs| && fs[i'].attrs == Failure(r.value) && forall j :: 0 <= j < i' ==> fs[j].attrs.Success?;
    assert i == i';
  }

  /** `get_code_for_data`: the body of the generated method. A union makes
      the macro panic; a unit struct emits nothing; a named struct emits its
      fields' fragments; a tuple struct or an enum is replaced by the
      message of its first failing field or variant, if any, and otherwise
      emits its fields' calls or its combo box. */
  function BodyOf(data: Data<AttributeArgs>, lex: Lexer): (b: BodyCode)
    ensures data.UnionData? <==> b.MacroAbort?
    ensures data.StructData? && data.fields.UnitFields? ==> b == NoCode
    ensures data.StructData? && data.fields.NamedFields? ==> b == FieldEditors(NamedStructCalls(data.fields.named, lex))
    ensures data.StructData? && data.fields.UnnamedFields? ==>
      var fs := data.fields.unnamed;
      (b.BodyError? <==> exists i :: 0 <= i < |fs| && fs[i].attrs.Failure?) &&
      (b.BodyError? ==> exists i :: 0 <= i < |fs| && fs[i].attrs == Failure(b.message) &&
                                    forall j :: 0 <= j < i ==> fs[j].attrs.Success?) &&
      (!b.BodyError? ==> b == FieldEditors(Flatten(TupleStructSlots(fs, lex))))
    ensures data.EnumData? ==>
      var vs := data.variants;
      (b.BodyError? <==> exists i :: 0 <= i < |vs| && vs[i].attrs.Failure?) &&
      (b.BodyError? ==> exists i :: 0 <= i < |vs| && vs[i].attrs == Failure(b.message) &&
                                    forall j :: 0 <= j < i ==> vs[j].attrs.Success?) &&
      (!b.BodyError? ==> EnumCodeOf(vs, lex).Success? && b == EnumEditor(EnumCodeOf(vs, lex).value))
  {
    match data
    case UnionData => MacroAbort
    case EnumData(vs) =>
      (match EnumCodeOf(vs, lex)
       case Failure(msg) => BodyError(msg)
       case Success(code) => EnumEditor(code))
    case StructData(fields) =>
      match fields
      case UnitFields => NoCode
      case NamedFields(fs) => FieldEditors(NamedStructCalls(fs, lex))
      case UnnamedFields(fs) =>
        match FirstFieldFailure(fs)
        case Some(msg) => BodyError(msg)
        case None => FieldEditors(Flatten(TupleStructSlots(fs, lex)))
  }

  /** `get_code_for_data`, with the tuple-struct loop of
      `get_code_for_struct_unnamed_fields`. */
  method DataCode(data: Data<AttributeArgs>, lex: Lexer) returns (b: BodyCode)
    ensures b == BodyOf(data, lex)
  {
    match data {
      case UnionData => b := MacroAbort;
      case EnumData(vs) =>
        match EnumCodeOf(vs, lex) {
          case Failure(msg) => b := BodyError(msg);
          case Success(code) => b := EnumEditor(code);
        }
      case StructData(fields) =>
        match fields {
          case UnitFields => b := NoCode;
          case NamedFields(fs) => b := FieldEditors(NamedStructCalls(fs, lex));
          case UnnamedFields(fs) =>
            var r := UnnamedStructCalls(fs, lex);
            match r {
              case Failure(msg) =>
                FirstFieldFailureUnique(fs, msg);
                b := BodyError(msg);
              case Success(calls) => b := FieldEditors(calls);
            }
        }
    }
  }

  /** A named struct whose fields all parse and are visible gets, in its
      body, field `i`'s own `get_function_call` in position `i`. */
  lemma NamedStructBody(fs: seq<NamedField<AttributeArgs>>, lex: Lexer)
    requires forall i :: 0 <= i < |fs| ==> fs[i].attrs.Success? && !fs[i].attrs.value.hidden
    ensures var b := BodyOf(StructData(NamedFields(fs)), lex);
      b.FieldEditors? && |b.calls| == |fs| &&
      forall i :: 0 <= i < |fs| ==>
        b.calls[i] == FunctionCall(SelfField(fs[i].name), FieldInfo(Some(fs[i].name), fs[i].ty), fs[i].attrs.value, "", lex)
  {
    NamedStructAllVisible(fs, lex);
  }

  /** What `derive(EguiInspect)` expands to: an impl whose generics carry
      the `EguiInspect` bound, whose body edits the data and then shows the
      execute buttons; or a single `compile_error!` when the type-level
      attributes do not parse; a union makes the macro panic. */
  datatype Expansion =
    | Impl(generics: seq<GenericParam>, body: BodyCode, buttons: seq<ButtonCode>)
    | ExpansionError(message: string)
    | ExpansionAbort                         // the macro panics

  const InspectBound: string := "egui_field_editor::EguiInspect"

  /** `derive_egui_field_editor`. */
  method Derive(objectAttrs: Result<seq<ExecuteBtn>, string>, generics: seq<GenericParam>, data: Data<AttributeArgs>, lex: Lexer)
    returns (e: Expansion)
    ensures objectAttrs.Failure? <==> e.ExpansionError?
    ensures objectAttrs.Failure? ==> e.message == objectAttrs.error
    ensures objectAttrs.Success? && data.UnionData? <==> e.ExpansionAbort?
    ensures e.Impl? ==> e.buttons == ExecuteButtons(objectAttrs.value, lex) && e.body == BodyOf(data, lex)
    ensures e.Impl? ==> |e.generics| == |generics|
    ensures e.Impl? ==> forall i :: 0 <= i < |generics| && generics[i].TypeParam? ==>
      e.generics[i] == TypeParam(generics[i].name, generics[i].bounds + [InspectBound])
    ensures e.Impl? ==> forall i :: 0 <= i < |generics| && !generics[i].TypeParam? ==> e.generics[i] == generics[i]
  {
    match objectAttrs {
      case Failure(msg) => e := ExpansionError(msg);
      case Success(btns) =>
        var gs := AddTraitBounds(generics, InspectBound);
        var body := DataCode(data, lex);
        if body.MacroAbort? {
          e := ExpansionAbort;
        } else {
          e := Impl(gs, body, ExecuteButtons(btns, lex));
        }
    }
  }
}

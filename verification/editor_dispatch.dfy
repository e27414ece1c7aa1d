/** `get_function_call` of egui_field_editor_derive/src/utils.rs: the
    decision table that turns one field's attribute bag into exactly one
    generated editor call, together with the label, tooltip and read-only
    flag that call receives.

    Generated code is abstract: an `EditorCall` names the runtime function
    the generated block calls and the arguments the macro fills in. Turning a
    `custom_fn` string into tokens is the proc-macro tokenizer, which is
    outside the model; it is a parameter `lex`. */
module EditorDispatch {
  import opened Wrappers
  import opened Text
  import opened Syntax
  import opened Prettify
  import opened EditorAttrs

  /** Tokenizing a string as Rust code: the tokens (as their text) or the
      tokenizer's error message. */
  type Lexer = string -> Result<string, string>

  /** The runtime editor a generated block calls. */
  datatype EditorKind =
    | CustomFn(callee: string)                              // `#custom_fn(...)`
    | NumberSlider(min: real, max: real, cast: string)      // `add_number_slider(.., min as T, max as T, ..)`
    | Number(min: real, max: real, cast: string)            // `add_number(.., Some((min as T, max as T)), ..)`
    | StringConvertibleMultiline(rows: Option<u8>)          // `add_string_convertible_multiline`
    | StringConvertible                                     // `add_string_convertible`
    | StringMultiline(rows: Option<u8>)                     // `add_string_multiline`
    | Color                                                 // `add_color`
    | FilePath(filters: seq<string>)                        // `add_path(.., vec![filters], ..)`
    | Date(params: DatePickerParams)                        // `add_date`
    | Inspect                                               // `EguiInspect::inspect_with_custom_id`

  /** What the macro emits for one field: a call with its label, tooltip and
      the field's own read-only flag (the emitted argument is
      `read_only || <flag>`), a `compile_error!`, or a panic of the macro
      itself. */
  datatype EditorCall =
    | Call(access: Access, caption: string, tooltip: string, readOnlyAttr: bool, kind: EditorKind)
    | CompileError(message: string)
    | MacroPanic

  /** The parts of a `syn::Field` the dispatch reads. */
  datatype FieldInfo = FieldInfo(ident: Option<string>, ty: Type)

  /** The read-only flag the called editor receives at run time, given the
      `read_only` argument of the surrounding `inspect_with_custom_id`. */
  function EffectiveReadOnly(c: EditorCall, callerReadOnly: bool): (ro: bool)
    requires c.Call?
    ensures callerReadOnly ==> ro
    ensures c.readOnlyAttr ==> ro
    ensures !callerReadOnly && !c.readOnlyAttr ==> !ro
  {
    callerReadOnly || c.readOnlyAttr
  }

  /** `Ident::new(&get_path_str(ty), ..)`: the printed type must be a single
      identifier. A path prints as its identifier only when it is one plain
      segment; `::f32`, `std::f32`, `Vec<u8>`, `&f32` and every other shape
      print with punctuation or spaces, and `Ident::new` panics on them. */
  function CastIdent(ty: Type): (r: Option<string>)
    ensures r.Some? <==> ty.PathType? && GetIdent(ty.leadingColon, ty.segments).Some?
    ensures r.Some? ==> r.value == ty.segments[0].ident
  {
    match ty
    case PathType(lc, segs) => GetIdent(lc, segs)
    case _ => None
  }

  /** The label of a field: the `name` attribute verbatim; otherwise the
      prettified identifier; otherwise (tuple fields) the prettified default
      name. */
  function FieldCaption(ident: Option<string>, attrs: AttributeArgs, defaultName: string): (c: string)
    ensures attrs.name.Some? ==> c == attrs.name.value
    ensures attrs.name.None? && ident.Some? ==> c == PrettifyName(ident.value)
    ensures attrs.name.None? && ident.None? ==> c == PrettifyName(defaultName)
  {
    match attrs.name
    case Some(n) => n
    case None =>
      match ident
      case Some(id) => PrettifyName(id)
      case None => PrettifyName(defaultName)
  }

  /** A label that was not given explicitly never contains `_`, and an empty
      default name gives an empty label. */
  lemma FieldCaptionDerived(ident: Option<string>, attrs: AttributeArgs, defaultName: string)
    requires attrs.name.None?
    ensures '_' !in FieldCaption(ident, attrs, defaultName)
    ensures ident.None? && defaultName == "" ==> FieldCaption(ident, attrs, defaultName) == ""
  {
    match ident
    case Some(id) => PrettifyNameNoUnderscore(id);
    case None => PrettifyNameNoUnderscore(defaultName);
  }

  /** The unnamed field `i` without a `name` attribute is labelled
      `Field  i`: the default name `Field i` goes through `prettify_name`,
      whose all-digit word keeps its leading space. */
  lemma TupleFieldCaption(attrs: AttributeArgs, i: nat)
    requires attrs.name.None?
    ensures FieldCaption(None, attrs, "Field " + NatToDecimal(i)) == "Field  " + NatToDecimal(i)
  {
    PrettifyFieldIndex(i);
  }

  /** `get_function_call`. */
  function FunctionCall(access: Access, field: FieldInfo, attrs: AttributeArgs, defaultName: string, lex: Lexer): (c: EditorCall)
    ensures c.Call? ==>
      c.access == access &&
      c.caption == FieldCaption(field.ident, attrs, defaultName) &&
      c.tooltip == attrs.tooltip.GetOr("") &&
      c.readOnlyAttr == attrs.readOnly
    ensures c.CompileError? <==> attrs.customFn.Some? && lex(attrs.customFn.value).Failure?
    ensures c.CompileError? ==> c.message == lex(attrs.customFn.value).error
    ensures c.MacroPanic? <==>
      attrs.customFn.None? && (attrs.slider.Some? || attrs.range.Some?) && CastIdent(field.ty).None?
    ensures c.Call? && c.kind.CustomFn? ==>
      attrs.customFn.Some? && lex(attrs.customFn.value).Success? && c.kind.callee == lex(attrs.customFn.value).value
    ensures c.Call? && c.kind.NumberSlider? ==>
      attrs.slider.Some? && CastIdent(field.ty).Some? && c.kind == NumberSlider(attrs.slider.value.min, attrs.slider.value.max, CastIdent(field.ty).value)
    ensures c.Call? && c.kind.Number? ==>
      attrs.range.Some? && CastIdent(field.ty).Some? && c.kind == Number(attrs.range.value.min, attrs.range.value.max, CastIdent(field.ty).value)
    ensures c.Call? && (c.kind.StringMultiline? || c.kind.StringConvertibleMultiline?) ==>
      attrs.multiline.Some? && c.kind.rows == attrs.multiline.value.rows
    ensures c.Call? && c.kind.FilePath? ==> attrs.file.Some? && c.kind.filters == attrs.file.value.filter
    ensures c.Call? && c.kind.Date? ==> attrs.date.Some? && c.kind.params == attrs.date.value
  {
    var caption := FieldCaption(field.ident, attrs, defaultName);
    var tooltip := attrs.tooltip.GetOr("");
    if attrs.customFn.Some? then
      match lex(attrs.customFn.value)
      case Success(tokens) => Call(access, caption, tooltip, attrs.readOnly, CustomFn(tokens))
      case Failure(msg) => CompileError(msg)
    else if attrs.slider.Some? then
      match CastIdent(field.ty)
      case Some(t) => Call(access, caption, tooltip, attrs.readOnly, NumberSlider(attrs.slider.value.min, attrs.slider.value.max, t))
      case None => MacroPanic
    else if attrs.range.Some? then
      match CastIdent(field.ty)
      case Some(t) => Call(access, caption, tooltip, attrs.readOnly, Number(attrs.range.value.min, attrs.range.value.max, t))
      case None => MacroPanic
    else if attrs.fromString then
      match attrs.multiline
      case Some(m) => Call(access, caption, tooltip, attrs.readOnly, StringConvertibleMultiline(m.rows))
      case None => Call(access, caption, tooltip, attrs.readOnly, StringConvertible)
    else if attrs.multiline.Some? then
      Call(access, caption, tooltip, attrs.readOnly, StringMultiline(attrs.multiline.value.rows))
    else if attrs.color then
      Call(access, caption, tooltip, attrs.readOnly, Color)
    else if attrs.file.Some? then
      Call(access, caption, tooltip, attrs.readOnly, FilePath(attrs.file.value.filter))
    else if attrs.date.Some? then
      Call(access, caption, tooltip, attrs.readOnly, Date(attrs.date.value))
    else
      Call(access, caption, tooltip, attrs.readOnly, Inspect)
  }

  // ---------------------------------------------------------------------
  // The priority table as an independent reference

  /** One row of the dispatch table. */
  datatype Rule = CustomFnRule | SliderRule | RangeRule | FromStringRule | MultilineRule
                | ColorRule | FileRule | DateRule | DefaultRule

  /** The rows in the order they are tried. */
  const Priority: seq<Rule> := [CustomFnRule, SliderRule, RangeRule, FromStringRule, MultilineRule, ColorRule, FileRule, DateRule]

  /** Whether the attribute bag asks for the editor of this rule. */
  predicate Triggers(a: AttributeArgs, rule: Rule) {
    match rule
    case CustomFnRule => a.customFn.Some?
    case SliderRule => a.slider.Some?
    case RangeRule => a.range.Some?
    case FromStringRule => a.fromString
    case MultilineRule => a.multiline.Some?
    case ColorRule => a.color
    case FileRule => a.file.Some?
    case DateRule => a.date.Some?
    case DefaultRule => true
  }

  /** The first of `rules` the bag triggers, or `DefaultRule` if none. */
  function FirstTriggered(a: AttributeArgs, rules: seq<Rule>): (r: Rule)
    requires DefaultRule !in rules
    ensures r == DefaultRule || r in rules
    ensures Triggers(a, r)
    ensures r != DefaultRule ==>
      exists k :: 0 <= k < |rules| && rules[k] == r && forall j :: 0 <= j < k ==> !Triggers(a, rules[j])
    ensures r == DefaultRule ==> forall j :: 0 <= j < |rules| ==> !Triggers(a, rules[j])
  {
    if |rules| == 0 then DefaultRule
    else if Triggers(a, rules[0]) then rules[0]
    else
      var r := FirstTriggered(a, rules[1..]);
      assert r != DefaultRule ==> exists k :: 0 <= k < |rules| && rules[k] == r && forall j :: 0 <= j < k ==> !Triggers(a, rules[j]) by {
        if r != DefaultRule {
          var k :| 0 <= k < |rules[1..]| && rules[1..][k] == r && forall j :: 0 <= j < k ==> !Triggers(a, rules[1..][j]);
          assert rules[k + 1] == r;
          forall j | 0 <= j < k + 1
            ensures !Triggers(a, rules[j])
          {
            if j > 0 {
              assert rules[j] == rules[1..][j - 1];
            }
          }
        }
      }
      assert r == DefaultRule ==> forall j :: 0 <= j < |rules| ==> !Triggers(a, rules[j]) by {
        if r == DefaultRule {
          forall j | 0 <= j < |rules|
            ensures !Triggers(a, rules[j])
          {
            if j > 0 {
              assert rules[j] == rules[1..][j - 1];
            }
          }
        }
      }
      r
  }

  /** The rule the table selects for a bag: the first triggered row of
      `Priority`, which is the first attribute present in the order
      custom_fn, slider, range, from_string, multiline, color, file, date. */
  function Chosen(a: AttributeArgs): (r: Rule)
    ensures Triggers(a, r)
    ensures r == DefaultRule ==> forall j :: 0 <= j < |Priority| ==> !Triggers(a, Priority[j])
    ensures r != DefaultRule ==> forall j :: 0 <= j < Rank(r) ==> !Triggers(a, Priority[j])
  {
    var r := FirstTriggered(a, Priority);
    assert r != DefaultRule ==> forall j :: 0 <= j < Rank(r) ==> !Triggers(a, Priority[j]) by {
      if r != DefaultRule {
        var k :| 0 <= k < |Priority| && Priority[k] == r && forall j :: 0 <= j < k ==> !Triggers(a, Priority[j]);
        RankUnique(r, k);
      }
    }
    r
  }

  /** Each rule occurs once in `Priority`, at its rank. */
  lemma RankUnique(r: Rule, k: nat)
    requires k < |Priority| && Priority[k] == r
    ensures k == Rank(r)
  {
  }

  /** The table row a generated call belongs to. */
  function RuleOf(kind: EditorKind): Rule {
    match kind
    case CustomFn(_) => CustomFnRule
    case NumberSlider(_, _, _) => SliderRule
    case Number(_, _, _) => RangeRule
    case StringConvertibleMultiline(_) => FromStringRule
    case StringConvertible => FromStringRule
    case StringMultiline(_) => MultilineRule
    case Color => ColorRule
    case FilePath(_) => FileRule
    case Date(_) => DateRule
    case Inspect => DefaultRule
  }

  /** The position of a rule in the table; `DefaultRule` comes last. */
  function Rank(rule: Rule): (n: nat)
    ensures n <= 8
    ensures rule != DefaultRule ==> n < |Priority| && Priority[n] == rule
    ensures rule == DefaultRule ==> n == |Priority|
  {
    match rule
    case CustomFnRule => 0
    case SliderRule => 1
    case RangeRule => 2
    case FromStringRule => 3
    case MultilineRule => 4
    case ColorRule => 5
    case FileRule => 6
    case DateRule => 7
    case DefaultRule => 8
  }

  /** The editor chosen by `get_function_call` is the first triggered row
      of the priority table; when that row cannot produce a call (the
      tokenizer or the cast type fails) no other row is tried. */
  lemma DispatchFollowsPriority(access: Access, field: FieldInfo, attrs: AttributeArgs, defaultName: string, lex: Lexer)
    ensures var c := FunctionCall(access, field, attrs, defaultName, lex);
      (c.Call? ==> RuleOf(c.kind) == Chosen(attrs)) &&
      (c.CompileError? ==> Chosen(attrs) == CustomFnRule) &&
      (c.MacroPanic? ==> Chosen(attrs) == SliderRule || Chosen(attrs) == RangeRule)
  {
    ChosenByFields(attrs);
    CallRuleByFields(access, field, attrs, defaultName, lex);
  }

  /** The row of a generated call, read off the attribute fields in the
      order `get_function_call` tests them. */
  lemma CallRuleByFields(access: Access, field: FieldInfo, attrs: AttributeArgs, defaultName: string, lex: Lexer)
    ensures var c := FunctionCall(access, field, attrs, defaultName, lex);
      c.Call? ==>
        RuleOf(c.kind) ==
        (if attrs.customFn.Some? then CustomFnRule
         else if attrs.slider.Some? then SliderRule
         else if attrs.range.Some? then RangeRule
         else if attrs.fromString then FromStringRule
         else if attrs.multiline.Some? then MultilineRule
         else if attrs.color then ColorRule
         else if attrs.file.Some? then FileRule
         else if attrs.date.Some? then DateRule
         else DefaultRule)
  {
  }

  /** `Chosen` spelled out field by field. */
  lemma ChosenByFields(a: AttributeArgs)
    ensures Chosen(a) ==
      if a.customFn.Some? then CustomFnRule
      else if a.slider.Some? then SliderRule
      else if a.range.Some? then RangeRule
      else if a.fromString then FromStringRule
      else if a.multiline.Some? then MultilineRule
      else if a.color then ColorRule
      else if a.file.Some? then FileRule
      else if a.date.Some? then DateRule
      else DefaultRule
  {
    var r := Chosen(a);
    assert Priority[0] == CustomFnRule && Priority[1] == SliderRule && Priority[2] == RangeRule;
    assert Priority[3] == FromStringRule && Priority[4] == MultilineRule && Priority[5] == ColorRule;
    assert Priority[6] == FileRule && Priority[7] == DateRule;
  }

  /** Two attribute bags that agree on the label, tooltip and read-only
      flag and on every table row up to row `k` (including the `multiline`
      rows count that `from_string` reads). */
  predicate SameUpTo(a: AttributeArgs, b: AttributeArgs, k: nat) {
    a.name == b.name && a.tooltip == b.tooltip && a.readOnly == b.readOnly &&
    a.customFn == b.customFn &&
    (k >= 1 ==> a.slider == b.slider) &&
    (k >= 2 ==> a.range == b.range) &&
    (k >= 3 ==> a.fromString == b.fromString && (a.fromString ==> a.multiline == b.multiline)) &&
    (k >= 4 ==> a.multiline == b.multiline) &&
    (k >= 5 ==> a.color == b.color) &&
    (k >= 6 ==> a.file == b.file) &&
    (k >= 7 ==> a.date == b.date)
  }

  /** Attributes below the chosen row are ignored: changing any of them
      (for instance a `range` next to a `slider`) leaves the call as it is. */
  lemma LowerPriorityIgnored(access: Access, field: FieldInfo, a: AttributeArgs, b: AttributeArgs, defaultName: string, lex: Lexer)
    requires SameUpTo(a, b, Rank(Chosen(a)))
    ensures FunctionCall(access, field, a, defaultName, lex) == FunctionCall(access, field, b, defaultName, lex)
  {
    ChosenByFields(a);
  }

  /** `slider` wins over `range`: with both present the slider is emitted,
      with its bounds and the field's type as the cast. */
  lemma SliderWinsOverRange(access: Access, field: FieldInfo, attrs: AttributeArgs, defaultName: string, lex: Lexer)
    requires attrs.customFn.None? && attrs.slider.Some? && attrs.range.Some?
    requires CastIdent(field.ty).Some?
    ensures var c := FunctionCall(access, field, attrs, defaultName, lex);
      c.Call? && c.kind == NumberSlider(attrs.slider.value.min, attrs.slider.value.max, CastIdent(field.ty).value)
  {
  }

  /** `from_string` picks the convertible editor; with `multiline` it is the
      multiline one carrying the row count. */
  lemma FromStringEditors(access: Access, field: FieldInfo, attrs: AttributeArgs, defaultName: string, lex: Lexer)
    requires attrs.customFn.None? && attrs.slider.None? && attrs.range.None? && attrs.fromString
    ensures var c := FunctionCall(access, field, attrs, defaultName, lex);
      c.Call? &&
      (attrs.multiline.Some? ==> c.kind == StringConvertibleMultiline(attrs.multiline.value.rows)) &&
      (attrs.multiline.None? ==> c.kind == StringConvertible)
  {
  }

  /** A field without attributes is edited through its own `EguiInspect`
      implementation, writable unless the caller is read-only, with an
      empty tooltip and its prettified name as label. */
  lemma DefaultFieldCall(access: Access, field: FieldInfo, defaultName: string, lex: Lexer)
    ensures var c := FunctionCall(access, field, DefaultAttributeArgs(), defaultName, lex);
      c.Call? && c.kind == Inspect && c.tooltip == "" &&
      (forall callerReadOnly: bool :: EffectiveReadOnly(c, callerReadOnly) == callerReadOnly) &&
      '_' !in c.caption
  {
    FieldCaptionDerived(field.ident, DefaultAttributeArgs(), defaultName);
  }
}

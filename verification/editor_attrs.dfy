/** The attribute bags of egui_field_editor_derive/src/lib.rs: the
    per-field/per-variant `#[inspect(...)]` arguments, the date picker and
    file picker parameters, the `multiline` argument parser and the
    type-level `execute_btn` list.

    Numbers given to `slider`/`range` are `f32` in the source; they are only
    copied into the generated call, so they are modelled as `real`. */
module EditorAttrs {
  import opened Wrappers

  /** `Range<T>`: `min`/`max`, each defaulting to zero when omitted. */
  datatype Range<T> = Range(min: T, max: T)

  datatype DatePickerParams = DatePickerParams(
    comboBoxes: bool,
    arrows: bool,
    calendar: bool,
    calendarWeek: bool,
    showIcon: bool,
    format: string,
    highlightWeekends: bool,
    startEndYears: Option<Range<int>>)

  /** `DatePickerParams::default`: every switch on, ISO date format, no year
      range (the widget then picks its own). */
  function DefaultDatePickerParams(): (p: DatePickerParams)
    ensures p.comboBoxes && p.arrows && p.calendar && p.calendarWeek && p.showIcon && p.highlightWeekends
    ensures p.format == "%Y-%m-%d"
    ensures p.startEndYears.None?
  {
    DatePickerParams(true, true, true, true, true, "%Y-%m-%d", true, None)
  }

  datatype FilePathParams = FilePathParams(filter: seq<string>)

  /** The `multiline` argument: the number of text rows, if any. */
  datatype Multiline = Multiline(rows: Option<u8>)

  datatype AttributeArgs = AttributeArgs(
    name: Option<string>,
    hidden: bool,
    readOnly: bool,
    slider: Option<Range<real>>,
    multiline: Option<Multiline>,
    color: bool,
    range: Option<Range<real>>,
    tooltip: Option<string>,
    date: Option<DatePickerParams>,
    file: Option<FilePathParams>,
    fromString: bool,
    customFn: Option<string>)

  /** `AttributeArgs::default`: what a field without `#[inspect]` gets. */
  function DefaultAttributeArgs(): (a: AttributeArgs)
    ensures a.name.None? && a.tooltip.None? && a.customFn.None?
    ensures !a.hidden && !a.readOnly && !a.color && !a.fromString
    ensures a.slider.None? && a.range.None? && a.multiline.None? && a.date.None? && a.file.None?
  {
    AttributeArgs(None, false, false, None, None, false, None, None, None, None, false, None)
  }

  // ---------------------------------------------------------------------
  // `Multiline::from_meta`

  /** The value expression of `multiline = <expr>`: an integer literal, or
      anything else. */
  datatype Expr = IntLit(value: nat) | OtherExpr

  /** A token inside `multiline(...)`: an integer literal or anything else. */
  datatype Token = IntToken(value: nat) | OtherToken

  /** The three syntactic forms an attribute argument can take. */
  datatype Meta =
    | MetaPath                         // `multiline`
    | MetaNameValue(value: Expr)       // `multiline = 6`
    | MetaList(tokens: seq<Token>)     // `multiline()`, `multiline(6)`

  datatype MetaError =
    | UnexpectedExprType     // `u8::from_expr` on a non-literal
    | ValueOutOfRange        // a literal that does not fit in `u8`
    | ListParseFailure       // "Failed to parse list tokens: ..."
    | InvalidU8Value         // "Invalid u8 value: ..."

  /** Rows used when `multiline` is given without a number. */
  const DefaultRows: u8 := 4

  /** `Multiline::from_meta`. */
  function MultilineFromMeta(m: Meta): (r: Result<Multiline, MetaError>)
    ensures r.Success? ==> r.value.rows.Some?
    ensures m.MetaPath? ==> r == Success(Multiline(Some(DefaultRows)))
    ensures m.MetaList? && |m.tokens| == 0 ==> r == Success(Multiline(Some(DefaultRows)))
    ensures forall n: u8 :: m == MetaNameValue(IntLit(n as nat)) ==> r == Success(Multiline(Some(n)))
    ensures forall n: u8 :: m == MetaList([IntToken(n as nat)]) ==> r == Success(Multiline(Some(n)))
    ensures m.MetaNameValue? && m.value.IntLit? && m.value.value >= 256 ==> r == Failure(ValueOutOfRange)
    ensures m == MetaNameValue(OtherExpr) ==> r == Failure(UnexpectedExprType)
    ensures m.MetaList? && |m.tokens| > 0 && !(|m.tokens| == 1 && m.tokens[0].IntToken?) ==> r == Failure(ListParseFailure)
    ensures m.MetaList? && |m.tokens| == 1 && m.tokens[0].IntToken? && m.tokens[0].value >= 256 ==> r == Failure(InvalidU8Value)
  {
    match m
    case MetaPath => Success(Multiline(Some(DefaultRows)))
    case MetaNameValue(e) =>
      (match e
       case IntLit(v) => if v < 256 then Success(Multiline(Some(v as u8))) else Failure(ValueOutOfRange)
       case OtherExpr => Failure(UnexpectedExprType))
    case MetaList(tokens) =>
      if |tokens| == 0 then Success(Multiline(Some(DefaultRows)))
      else if |tokens| == 1 && tokens[0].IntToken? then
        (if tokens[0].value < 256 then Success(Multiline(Some(tokens[0].value as u8))) else Failure(InvalidU8Value))
      else Failure(ListParseFailure)
  }

  /** The `= n` and `(n)` spellings are interchangeable. */
  lemma MultilineSpellingsAgree(v: nat)
    ensures MultilineFromMeta(MetaNameValue(IntLit(v))).Success? <==> MultilineFromMeta(MetaList([IntToken(v)])).Success?
    ensures MultilineFromMeta(MetaNameValue(IntLit(v))).Success? ==>
      MultilineFromMeta(MetaNameValue(IntLit(v))) == MultilineFromMeta(MetaList([IntToken(v)]))
  {
  }

  // ---------------------------------------------------------------------
  // `execute_btn`

  datatype ExecuteBtn = ExecuteBtn(fnName: string, isMethod: bool, caption: Option<string>, tooltip: Option<string>)

  /** Builds an `ExecuteBtn` from the arguments written in the attribute;
      `is_method` defaults to true (`bool_true`). */
  function ExecuteBtnFromArgs(fnName: string, isMethod: Option<bool>, caption: Option<string>, tooltip: Option<string>): (b: ExecuteBtn)
    ensures b.fnName == fnName && b.caption == caption && b.tooltip == tooltip
    ensures isMethod.None? ==> b.isMethod
    ensures isMethod.Some? ==> b.isMethod == isMethod.value
  {
    ExecuteBtn(fnName, isMethod.GetOr(true), caption, tooltip)
  }
}

/** The value-level rules of the runtime crate egui_inspect/src/lib.rs: the
    `EguiInspector` builder and what its `ui` asks of the inspected object,
    the default `inspect`, the `Color32Wrapper` conversions, and the update
    rules of the colour, combo box, button and from-string editors.

    Drawing is not modelled. A frame of user interaction is a parameter:
    the colour the picker holds at the end of the frame, the entry picked
    in a combo box, whether a button was clicked, the text edit applied to
    a buffer. A disabled (read-only) widget takes no input. */
module InspectLib {
  import opened Wrappers

  // ---------------------------------------------------------------------
  // Widget ids

  /** `egui::Id`: the NULL id, an automatic id handed out by the `Ui`, an id
      made from a salt (`Id::new`), or a child id `parent.with(key)`. Hash
      values are not modelled: distinct constructions are distinct ids. */
  datatype Id = NullId | AutoId(n: nat) | Salted(salt: string) | Child(parent: Id, key: string)

  // ---------------------------------------------------------------------
  // The inspector widget

  /** `EguiInspector`: the object, an optional title, the read-only flag
      and an optional id salt. */
  datatype Inspector<T> = Inspector(obj: T, title: Option<string>, readOnly: bool, idSalt: Option<Id>)

  /** `EguiInspector::new`. */
  function NewInspector<T>(obj: T): (i: Inspector<T>)
    ensures i.obj == obj && i.title.None? && !i.readOnly && i.idSalt.None?
  {
    Inspector(obj, None, false, None)
  }

  /** `EguiInspector::new_read_only`. */
  function NewReadOnlyInspector<T>(obj: T): (i: Inspector<T>)
    ensures i.obj == obj && i.title.None? && i.readOnly && i.idSalt.None?
  {
    Inspector(obj, None, true, None)
  }

  /** `.read_only()`: sets the flag and nothing else. */
  function SetReadOnly<T>(i: Inspector<T>): (r: Inspector<T>)
    ensures r.readOnly
    ensures r.obj == i.obj && r.title == i.title && r.idSalt == i.idSalt
  {
    i.(readOnly := true)
  }

  /** `.id_salt(salt)`: sets the salt (as `Id::new(salt)`) and nothing else. */
  function WithIdSalt<T>(i: Inspector<T>, salt: string): (r: Inspector<T>)
    ensures r.idSalt == Some(Salted(salt))
    ensures r.obj == i.obj && r.title == i.title && r.readOnly == i.readOnly
  {
    i.(idSalt := Some(Salted(salt)))
  }

  /** `.with_title(title)`: sets the title and nothing else. */
  function WithTitle<T>(i: Inspector<T>, title: string): (r: Inspector<T>)
    ensures r.title == Some(title)
    ensures r.obj == i.obj && r.readOnly == i.readOnly && r.idSalt == i.idSalt
  {
    i.(title := Some(title))
  }

  /** The read-only constructor is the plain one followed by `.read_only()`. */
  lemma NewReadOnlyIsReadOnlyNew<T>(obj: T)
    ensures NewReadOnlyInspector(obj) == SetReadOnly(NewInspector(obj))
  {
  }

  /** The builder calls touch disjoint fields, so their order does not
      matter, and repeating one keeps only the last value. */
  lemma BuilderCallsCommute<T>(i: Inspector<T>, salt: string, salt': string, title: string, title': string)
    ensures WithTitle(SetReadOnly(i), title) == SetReadOnly(WithTitle(i, title))
    ensures WithIdSalt(SetReadOnly(i), salt) == SetReadOnly(WithIdSalt(i, salt))
    ensures WithIdSalt(WithTitle(i, title), salt) == WithTitle(WithIdSalt(i, salt), title)
    ensures SetReadOnly(SetReadOnly(i)) == SetReadOnly(i)
    ensures WithTitle(WithTitle(i, title), title') == WithTitle(i, title')
    ensures WithIdSalt(WithIdSalt(i, salt), salt') == WithIdSalt(i, salt')
  {
  }

  /** The call the inspected object receives:
      `inspect_with_custom_id(parent, label, tooltip, read_only, ui)`. */
  datatype InspectRequest = InspectRequest(parent: Id, caption: string, tooltip: string, readOnly: bool)

  /** `EguiInspect::inspect`: delegates with the NULL id. */
  function Inspect(caption: string, tooltip: string, readOnly: bool): (r: InspectRequest)
    ensures r.parent == NullId
    ensures r.caption == caption && r.tooltip == tooltip && r.readOnly == readOnly
  {
    InspectRequest(NullId, caption, tooltip, readOnly)
  }

  /** What `Widget::ui` of the inspector does: a heading when a title is
      set, then one request with empty label and tooltip. */
  datatype UiOutcome = UiOutcome(heading: Option<string>, request: InspectRequest)

  /** `Widget::ui` for `EguiInspector`. */
  function InspectorUi<T>(i: Inspector<T>): (o: UiOutcome)
    ensures o.heading == i.title
    ensures o.request.caption == "" && o.request.tooltip == "" && o.request.readOnly == i.readOnly
    ensures i.idSalt.Some? ==> o.request.parent == i.idSalt.value
    ensures i.idSalt.None? ==> o.request == Inspect("", "", i.readOnly)
  {
    var req := match i.idSalt
      case Some(salt) => InspectRequest(salt, "", "", i.readOnly)
      case None => Inspect("", "", i.readOnly);
    UiOutcome(i.title, req)
  }

  /** An inspector built with `.id_salt(s)` asks for ids under `Id::new(s)`;
      one without asks for automatic ids (the NULL parent). */
  lemma UiParentFollowsSalt<T>(obj: T, salt: string, readOnly: bool)
    ensures InspectorUi(WithIdSalt(NewInspector(obj), salt)).request.parent == Salted(salt)
    ensures InspectorUi(NewInspector(obj)).request.parent == NullId
    ensures InspectorUi(SetReadOnly(WithIdSalt(NewInspector(obj), salt))).request ==
            InspectRequest(Salted(salt), "", "", true)
  {
  }

  // ---------------------------------------------------------------------
  // Colours

  /** `egui::Color32` as its four stored bytes. */
  datatype Color32 = Color32(r: u8, g: u8, b: u8, a: u8)

  /** `Color32Wrapper`: a newtype around `Color32`. */
  datatype Color32Wrapper = Color32Wrapper(inner: Color32)

  /** `From<Color32> for Color32Wrapper`. */
  function Wrap(c: Color32): (w: Color32Wrapper)
    ensures w.inner == c
  {
    Color32Wrapper(c)
  }

  /** `From<Color32Wrapper> for Color32`. */
  function Unwrap(w: Color32Wrapper): Color32 {
    w.inner
  }

  /** `PartialEq for Color32Wrapper`: equality of the wrapped colours. */
  predicate WrapperEq(x: Color32Wrapper, y: Color32Wrapper) {
    Unwrap(x) == Unwrap(y)
  }

  /** The two conversions are inverse to each other, and wrapper equality
      is exactly equality of the wrapped values. */
  lemma WrapperRoundTrip(c: Color32, w: Color32Wrapper, x: Color32Wrapper, y: Color32Wrapper)
    ensures Unwrap(Wrap(c)) == c
    ensures Wrap(Unwrap(w)) == w
    ensures WrapperEq(x, y) <==> x == y
    ensures WrapperEq(Wrap(c), Wrap(Unwrap(w))) <==> c == w.inner
  {
  }

  /** `add_color`: the picker starts from the value's colour; the value is
      written back (through `From<Color32Wrapper>`) only when the picker
      reports a change. A read-only editor is disabled and takes no input. */
  function AddColor<T>(data: T, toWrapper: T -> Color32Wrapper, fromWrapper: Color32Wrapper -> T,
                       readOnly: bool, picked: Color32Wrapper): (r: T)
    ensures readOnly ==> r == data
    ensures picked == toWrapper(data) ==> r == data
    ensures !readOnly && picked != toWrapper(data) ==> r == fromWrapper(picked)
  {
    if !readOnly && !WrapperEq(picked, toWrapper(data)) then fromWrapper(picked) else data
  }

  /** For a type whose conversions lose nothing, the edited value shows
      exactly the picked colour. */
  lemma AddColorShowsPick<T>(data: T, toWrapper: T -> Color32Wrapper, fromWrapper: Color32Wrapper -> T, picked: Color32Wrapper)
    requires forall w :: toWrapper(fromWrapper(w)) == w
    ensures toWrapper(AddColor(data, toWrapper, fromWrapper, false, picked)) == picked
  {
  }

  // ---------------------------------------------------------------------
  // Numbers, combo boxes, buttons

  /** The drag editor `add_number` builds: with `minmax` it is limited to
      `min..=max`, without it is unbounded. */
  datatype DragValue = DragValue(range: Option<(int, int)>)

  function AddNumber(minmax: Option<(int, int)>): (d: DragValue)
    ensures d.range.Some? <==> minmax.Some?
    ensures minmax.Some? ==> d.range.value == minmax.value
  {
    match minmax
    case Some(mm) => DragValue(Some(mm))
    case None => DragValue(None)
  }

  /** One frame of a drag editor as egui runs it: a read-only editor is
      disabled and keeps the value; a drag to `x` sets the value to `x`,
      clamped into the range when there is one. */
  function DragFrame(d: DragValue, value: int, readOnly: bool, dragTo: Option<int>): (v: int)
    requires d.range.Some? ==> d.range.value.0 <= d.range.value.1
    ensures readOnly || dragTo.None? ==> v == value
    ensures d.range.Some? && !readOnly && dragTo.Some? ==> d.range.value.0 <= v <= d.range.value.1
    ensures d.range.None? && !readOnly && dragTo.Some? ==> v == dragTo.value
  {
    if readOnly || dragTo.None? then value
    else match d.range
      case None => dragTo.value
      case Some(mm) => if dragTo.value < mm.0 then mm.0 else if dragTo.value > mm.1 then mm.1 else dragTo.value
  }

  /** The value after a sequence of frames. */
  function DragFrames(d: DragValue, value: int, readOnly: bool, drags: seq<Option<int>>): int
    requires d.range.Some? ==> d.range.value.0 <= d.range.value.1
    decreases |drags|
  {
    if |drags| == 0 then value
    else DragFrames(d, DragFrame(d, value, readOnly, drags[0]), readOnly, drags[1..])
  }

  /** A number edited through `add_number(.., Some((min, max)), ..)` that
      starts in `min..=max` stays there whatever the user drags; a
      read-only one never changes. */
  lemma {:induction false} NumberStaysInRange(min: int, max: int, value: int, readOnly: bool, drags: seq<Option<int>>)
    requires min <= value <= max
    ensures min <= DragFrames(AddNumber(Some((min, max))), value, readOnly, drags) <= max
    ensures readOnly ==> DragFrames(AddNumber(Some((min, max))), value, readOnly, drags) == value
    decreases |drags|
  {
    if |drags| > 0 {
      var d := AddNumber(Some((min, max)));
      NumberStaysInRange(min, max, DragFrame(d, value, readOnly, drags[0]), readOnly, drags[1..]);
    }
  }

  /** `add_combobox`: the index into `choices` after one frame in which the
      user may have picked entry `picked`. The current index must be in
      range; the source panics otherwise. */
  function AddCombobox(current: nat, choices: seq<string>, readOnly: bool, picked: Option<nat>): (r: nat)
    requires current < |choices|
    ensures r < |choices|
    ensures readOnly || picked.None? ==> r == current
    ensures !readOnly && picked.Some? && picked.value < |choices| ==> r == picked.value
  {
    if !readOnly && picked.Some? && picked.value < |choices| then picked.value else current
  }

  /** The in-range invariant of the combo box index survives any sequence
      of frames. */
  lemma {:induction false} ComboboxStaysInRange(current: nat, choices: seq<string>, readOnly: bool, picks: seq<Option<nat>>)
    requires current < |choices|
    ensures ComboboxFrames(current, choices, readOnly, picks) < |choices|
    ensures readOnly ==> ComboboxFrames(current, choices, readOnly, picks) == current
    decreases |picks|
  {
    if |picks| > 0 {
      ComboboxStaysInRange(AddCombobox(current, choices, readOnly, picks[0]), choices, readOnly, picks[1..]);
    }
  }

  /** The index after a sequence of frames. */
  function ComboboxFrames(current: nat, choices: seq<string>, readOnly: bool, picks: seq<Option<nat>>): nat
    requires current < |choices|
    decreases |picks|
  {
    if |picks| == 0 then current
    else ComboboxFrames(AddCombobox(current, choices, readOnly, picks[0]), choices, readOnly, picks[1..])
  }

  /** `add_button`: the closure runs when the button is clicked, and a
      read-only button is disabled. */
  function AddButton(readOnly: bool, clicked: bool): (fired: bool)
    ensures fired <==> clicked && !readOnly
  {
    !readOnly && clicked
  }

  /** How many times the closure runs over a sequence of frames. */
  function ButtonRuns(readOnly: bool, clicks: seq<bool>): nat
    decreases |clicks|
  {
    if |clicks| == 0 then 0
    else (if AddButton(readOnly, clicks[0]) then 1 else 0) + ButtonRuns(readOnly, clicks[1..])
  }

  /** The closure runs once per click of an enabled button, and never for
      a read-only one. */
  lemma {:induction false} ButtonRunsPerClick(readOnly: bool, clicks: seq<bool>)
    ensures ButtonRuns(readOnly, clicks) == if readOnly then 0 else multiset(clicks)[true]
    decreases |clicks|
  {
    if |clicks| > 0 {
      ButtonRunsPerClick(readOnly, clicks[1..]);
      assert clicks == [clicks[0]] + clicks[1..];
    }
  }

  // ---------------------------------------------------------------------
  // Editing through string conversions

  /** The value after one frame and whether "Invalid format" is shown. */
  datatype Converted<T> = Converted(value: T, invalid: bool)

  /** `add_string_convertible` (and `add_string_convertible_multiline`,
      which differs only in showing four text rows): the value is shown
      through `Display`, the user may edit the text (not when read-only),
      and the value becomes the parse of the text when it parses and stays
      as it was otherwise. */
  function AddStringConvertible<T>(value: T, show: T -> string, parse: string -> Option<T>,
                                   readOnly: bool, edit: string -> string): (r: Converted<T>)
    ensures var text := if readOnly then show(value) else edit(show(value));
      (parse(text).Some? ==> r == Converted(parse(text).value, false)) &&
      (parse(text).None? ==> r == Converted(value, true))
  {
    var buffer := if readOnly then show(value) else edit(show(value));
    match parse(buffer)
    case Some(v) => Converted(v, false)
    case None => Converted(value, true)
  }

  /** Rows of the multiline convertible editor. */
  const ConvertibleMultilineRows: u8 := 4

  /** A frame without typing keeps a value whose text parses back to it.
      A read-only editor keeps the value only under that condition: a value
      whose text parses to something else is replaced even when read-only. */
  lemma ConvertibleIdleFrame<T>(value: T, show: T -> string, parse: string -> Option<T>, readOnly: bool)
    ensures parse(show(value)) == Some(value) ==>
      AddStringConvertible(value, show, parse, readOnly, s => s) == Converted(value, false)
    ensures parse(show(value)) == Some(value) ==>
      AddStringConvertible(value, show, parse, true, s => s + "x") == Converted(value, false)
    ensures parse(show(value)).Some? ==>
      AddStringConvertible(value, show, parse, true, s => s + "x").value == parse(show(value)).value
  {
  }

  /** Typing a text that does not parse never changes the value. */
  lemma ConvertibleRejectsInvalid<T>(value: T, show: T -> string, parse: string -> Option<T>, edit: string -> string)
    requires parse(edit(show(value))).None?
    ensures AddStringConvertible(value, show, parse, false, edit) == Converted(value, true)
  {
  }
}

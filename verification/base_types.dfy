/** The value rules of egui_field_editor/src/base_type_inspect.rs: the
    one-character text buffer behind the `char` editor, the id each
    container hands to its children, the `Vec` "+"/"-" buttons, the
    `Option` combo box, and the integer colour conversions of `U8Vec3` and
    `U8Vec4`.

    The colour types (`Color32`, `Color32Wrapper`) and ids are those of the
    inspect-library module; this crate's own lib.rs is not part of this
    model and is taken to define them the same way. */
module BaseTypeInspect {
  import opened Wrappers
  import opened Text
  import opened InspectLib

  // ---------------------------------------------------------------------
  // `CharString`: a text buffer that always holds exactly one character

  datatype CharString = CharString(text: string)

  /** The invariant promised by the buffer's only constructor and kept by
      its editing methods. */
  predicate ValidCharString(b: CharString) {
    |b.text| == 1
  }

  /** `CharString::new`. */
  function NewCharString(c: char): (b: CharString)
    ensures ValidCharString(b)
  {
    CharString([c])
  }

  /** `CharString::char`: the first character; the source unwraps, so the
      buffer must not be empty. */
  function CharOf(b: CharString): (c: char)
    requires |b.text| > 0
    ensures ValidCharString(b) ==> b == NewCharString(c)
  {
    b.text[0]
  }

  /** Reading back a fresh buffer gives its character. */
  lemma CharStringRoundTrip(c: char)
    ensures CharOf(NewCharString(c)) == c
  {
  }

  /** `TextBuffer::insert_text`: any non-empty insertion, wherever the
      cursor is, replaces the content by the inserted text's first
      character; the reported number of inserted characters is always 0. */
  function InsertText(b: CharString, text: string, charIndex: nat): (r: (CharString, nat))
    ensures r.1 == 0
    ensures |text| == 0 ==> r.0 == b
    ensures |text| > 0 ==> r.0 == NewCharString(text[0])
    ensures ValidCharString(b) ==> ValidCharString(r.0)
  {
    if |text| > 0 then (CharString([text[0]]), 0) else (b, 0)
  }

  /** `TextBuffer::delete_char_range`: does nothing. */
  function DeleteCharRange(b: CharString, start: nat, end: nat): (r: CharString)
    ensures r == b
  {
    b
  }

  /** A text-editing request a `TextEdit` makes of its buffer. The trait's
      other editing methods (`clear`, `replace_with`) are defaults built
      from these two. */
  datatype TextEditOp = Insert(text: string, at: nat) | Delete(start: nat, end: nat)

  function ApplyEdit(b: CharString, op: TextEditOp): CharString {
    match op
    case Insert(t, at) => InsertText(b, t, at).0
    case Delete(s, e) => DeleteCharRange(b, s, e)
  }

  function ApplyEdits(b: CharString, ops: seq<TextEditOp>): CharString
    decreases |ops|
  {
    if |ops| == 0 then b else ApplyEdits(ApplyEdit(b, ops[0]), ops[1..])
  }

  /** The first character of the last non-empty insertion, if any. */
  function LastInsertedChar(ops: seq<TextEditOp>): (r: Option<char>)
    decreases |ops|
  {
    if |ops| == 0 then None
    else
      var last := ops[|ops| - 1];
      if last.Insert? && |last.text| > 0 then Some(last.text[0]) else LastInsertedChar(ops[..|ops| - 1])
  }

  /** Whatever a text editor does to the buffer, it still holds exactly one
      character: the first character of the last non-empty insertion, or
      the original one when nothing was inserted. */
  lemma {:induction false} EditsKeepOneChar(c: char, ops: seq<TextEditOp>)
    ensures ValidCharString(ApplyEdits(NewCharString(c), ops))
    ensures CharOf(ApplyEdits(NewCharString(c), ops)) == LastInsertedChar(ops).GetOr(c)
    decreases |ops|
  {
    if |ops| > 0 {
      var init := ops[..|ops| - 1];
      var last := ops[|ops| - 1];
      EditsKeepOneChar(c, init);
      ApplyEditsSnoc(NewCharString(c), init, last);
      assert ops == init + [last];
    }
  }

  /** Applying edits one more at the end. */
  lemma {:induction false} ApplyEditsSnoc(b: CharString, init: seq<TextEditOp>, last: TextEditOp)
    ensures ApplyEdits(b, init + [last]) == ApplyEdit(ApplyEdits(b, init), last)
    decreases |init|
  {
    if |init| == 0 {
      assert init + [last] == [last];
    } else {
      assert (init + [last])[1..] == init[1..] + [last];
      ApplyEditsSnoc(ApplyEdit(b, init[0]), init[1..], last);
    }
  }

  /** `EguiInspect for char`: the character is edited in a `CharString`
      and written back. A read-only editor applies no edits. */
  function InspectChar(c: char, readOnly: bool, ops: seq<TextEditOp>): (r: char)
    ensures readOnly ==> r == c
    ensures !readOnly ==> r == LastInsertedChar(ops).GetOr(c)
  {
    var b := ApplyEdits(NewCharString(c), if readOnly then [] else ops);
    EditsKeepOneChar(c, if readOnly then [] else ops);
    CharOf(b)
  }

  /** Typing a whole word into the `char` editor keeps only its first letter;
      erasing keeps the old character. */
  lemma InspectCharExamples()
    ensures InspectChar('a', false, [Insert("xyz", 0)]) == 'x'
    ensures InspectChar('a', false, [Delete(0, 1)]) == 'a'
    ensures InspectChar('a', false, [Delete(0, 1), Insert("", 0)]) == 'a'
  {
    EditsKeepOneChar('a', [Delete(0, 1), Insert("", 0)]);
    assert [Delete(0, 1), Insert("", 0)][..1] == [Delete(0, 1)];
  }

  // ---------------------------------------------------------------------
  // Ids handed down by containers

  /** The id a container uses for itself and the parent id it passes to its
      children: under a NULL parent it takes the next automatic id and
      passes NULL on; otherwise both are `parent.with(label)`. */
  datatype ScopeIds = ScopeIds(own: Id, forChildren: Id)

  function ContainerIds(parent: Id, caption: string, nextAuto: nat): (s: ScopeIds)
    ensures parent == NullId ==> s.own == AutoId(nextAuto) && s.forChildren == NullId
    ensures parent != NullId ==> s.own == Child(parent, caption) && s.forChildren == s.own
  {
    if parent == NullId then ScopeIds(AutoId(nextAuto), NullId)
    else var id := Child(parent, caption); ScopeIds(id, id)
  }

  /** The id reached by descending through nested containers labelled
      `path` from `root`, outermost label first. */
  function DescendPath(root: Id, path: seq<string>): Id
    decreases |path|
  {
    if |path| == 0 then root
    else ContainerIds(DescendPath(root, path[..|path| - 1]), path[|path| - 1], 0).forChildren
  }

  /** Under a NULL root the NULL id is passed all the way down. */
  lemma {:induction false} NullRootStaysNull(path: seq<string>)
    ensures DescendPath(NullId, path) == NullId
    decreases |path|
  {
    if |path| > 0 {
      NullRootStaysNull(path[..|path| - 1]);
    }
  }

  /** `inspect` roots a whole tree of nested editors at the NULL id: every
      container at every depth asks for an automatic id rather than one
      derived from the labels on its path. */
  lemma InspectRootsAtNull(caption: string, tooltip: string, readOnly: bool, path: seq<string>)
    ensures DescendPath(Inspect(caption, tooltip, readOnly).parent, path) == NullId
    ensures ContainerIds(DescendPath(Inspect(caption, tooltip, readOnly).parent, path), caption, 0).forChildren == NullId
  {
    NullRootStaysNull(path);
  }

  /** How deep an id is nested. */
  function Depth(id: Id): nat {
    match id
    case Child(p, _) => Depth(p) + 1
    case _ => 0
  }

  lemma {:induction false} DescendDepth(root: Id, path: seq<string>)
    requires root != NullId
    ensures DescendPath(root, path) != NullId
    ensures Depth(DescendPath(root, path)) == Depth(root) + |path|
    decreases |path|
  {
    if |path| > 0 {
      DescendDepth(root, path[..|path| - 1]);
    }
  }

  /** Under a non-NULL root the id determines the path of labels: in this
      model, where `Id::with` is a free constructor (hash collisions
      aside), two widgets reached through different label paths never
      share an id. */
  lemma {:induction false} DescendPathInjective(root: Id, p: seq<string>, q: seq<string>)
    requires root != NullId
    requires DescendPath(root, p) == DescendPath(root, q)
    ensures p == q
    decreases |p|
  {
    DescendDepth(root, p);
    DescendDepth(root, q);
    if |p| > 0 {
      var pi, qi := p[..|p| - 1], q[..|q| - 1];
      DescendDepth(root, pi);
      DescendDepth(root, qi);
      DescendPathInjective(root, pi, qi);
      assert p == pi + [p[|p| - 1]];
      assert q == qi + [q[|q| - 1]];
    }
  }

  /** The label of element `i` of a `Vec` or array. */
  function ItemCaption(i: nat): string {
    "Item " + NatToDecimal(i)
  }

  /** Elements of a container under a non-NULL parent get pairwise
      distinct ids, in this model, hash collisions aside. */
  lemma ItemIdsDistinct(container: Id, i: nat, j: nat)
    requires container != NullId && i != j
    ensures ContainerIds(container, ItemCaption(i), 0).own != ContainerIds(container, ItemCaption(j), 0).own
  {
    DecimalInjective(i, j);
    assert ItemCaption(i)[5..] == NatToDecimal(i);
    assert ItemCaption(j)[5..] == NatToDecimal(j);
  }

  // ---------------------------------------------------------------------
  // `Vec<T>`: the "+" and "-" buttons

  /** One frame of the buttons under a `Vec` editor: "+" pushes
      `T::default()`, then "-" pops the last element (nothing on an empty
      vector). Both buttons are disabled when read-only. */
  function VecButtons<T>(v: seq<T>, default: T, readOnly: bool, plus: bool, minus: bool): (r: seq<T>)
    ensures readOnly ==> r == v
    ensures !readOnly && plus && !minus ==> r == v + [default]
    ensures !readOnly && !plus && minus ==> r == (if |v| == 0 then v else v[..|v| - 1])
    ensures !readOnly && plus && minus ==> r == v
    ensures !plus && !minus ==> r == v
    ensures !minus ==> r[..|v|] == v
  {
    if readOnly then v
    else
      var pushed := if plus then v + [default] else v;
      if minus && |pushed| > 0 then pushed[..|pushed| - 1] else pushed
  }

  /** Pressing "+" and then "-" in two frames gives the vector back; "-" on
      an empty vector changes nothing. */
  lemma VecPushPop<T>(v: seq<T>, default: T)
    ensures VecButtons(VecButtons(v, default, false, true, false), default, false, false, true) == v
    ensures VecButtons([], default, false, false, true) == []
    ensures |VecButtons(v, default, false, true, false)| == |v| + 1
  {
    var pushed := v + [default];
    assert pushed[..|pushed| - 1] == v;
  }

  // ---------------------------------------------------------------------
  // `Option<T>`: the None/Some combo box

  /** `Ui::selectable_value(current, selected, text)`: a click on the entry
      sets `current` to `selected`, and the response reports a change only
      when the value differed. */
  function SelectableValue<T(==)>(current: T, selected: T, clicked: bool): (r: (T, bool))
    ensures r.1 <==> clicked && current != selected
    ensures r.0 == (if clicked then selected else current)
  {
    if clicked && current != selected then (selected, true) else (current, false)
  }

  /** The entry of the combo box the user clicked this frame, if any. */
  datatype OptionPick = PickNone | PickSome

  /** The combo box text. */
  function OptionSelectedText<T>(o: Option<T>): (s: string)
    ensures o.None? <==> s == "None"
    ensures o.Some? <==> s == "Some"
  {
    match o
    case None => "None"
    case Some(_) => "Some"
  }

  /** One frame of the `Option` editor's combo box. "None" clears the
      value; "Some" sets it to `Some(T::default())`, also when it already
      held another `Some`. The combo box is disabled when read-only. */
  function OptionCombo<T(==)>(o: Option<T>, default: T, readOnly: bool, pick: Option<OptionPick>): (r: Option<T>)
    ensures readOnly || pick.None? ==> r == o
    ensures !readOnly && pick == Some(PickNone) ==> r == None
    ensures !readOnly && pick == Some(PickSome) ==> r == Some(default)
  {
    if readOnly || pick.None? then o
    else
      var afterNone := SelectableValue(o, None, pick.value == PickNone);
      var o1 := if afterNone.1 then None else afterNone.0;
      var afterSome := SelectableValue(o1, Some(default), pick.value == PickSome);
      if afterSome.1 then Some(default) else afterSome.0
  }

  /** Picking "Some" again resets a held value to the default: the pick is
      a reset, not a no-op. */
  lemma OptionSomeResets<T>(x: T, default: T)
    requires x != default
    ensures OptionCombo(Some(x), default, false, Some(PickSome)) == Some(default)
    ensures OptionCombo(Some(x), default, false, Some(PickSome)) != Some(x)
    ensures OptionSelectedText(OptionCombo(Some(x), default, false, Some(PickNone))) == "None"
  {
  }

  // ---------------------------------------------------------------------
  // Integer colours

  datatype U8Vec3 = U8Vec3(x: u8, y: u8, z: u8)
  datatype U8Vec4 = U8Vec4(x: u8, y: u8, z: u8, w: u8)

  /** `Color32::from_rgb`: opaque. */
  function FromRgb(r: u8, g: u8, b: u8): (c: Color32)
    ensures c.r == r && c.g == g && c.b == b && c.a == 255
  {
    Color32(r, g, b, 255)
  }

  /** `Color32::from_rgba_premultiplied`: the bytes are stored as given. */
  function FromRgbaPremultiplied(r: u8, g: u8, b: u8, a: u8): (c: Color32)
    ensures c.r == r && c.g == g && c.b == b && c.a == a
  {
    Color32(r, g, b, a)
  }

  function Vec3ToWrapper(v: U8Vec3): Color32Wrapper {
    Wrap(FromRgb(v.x, v.y, v.z))
  }

  function WrapperToVec3(w: Color32Wrapper): U8Vec3 {
    U8Vec3(Unwrap(w).r, Unwrap(w).g, Unwrap(w).b)
  }

  function Vec4ToWrapper(v: U8Vec4): Color32Wrapper {
    Wrap(FromRgbaPremultiplied(v.x, v.y, v.z, v.w))
  }

  function WrapperToVec4(w: Color32Wrapper): U8Vec4 {
    U8Vec4(Unwrap(w).r, Unwrap(w).g, Unwrap(w).b, Unwrap(w).a)
  }

  /** Vector to colour and back is the identity on every channel; colour
      to `U8Vec3` and back keeps the colour exactly when it is opaque,
      while `U8Vec4` keeps every colour. */
  lemma ColorVectorRoundTrips(v3: U8Vec3, v4: U8Vec4, w: Color32Wrapper)
    ensures WrapperToVec3(Vec3ToWrapper(v3)) == v3
    ensures WrapperToVec4(Vec4ToWrapper(v4)) == v4
    ensures Vec4ToWrapper(WrapperToVec4(w)) == w
    ensures Vec3ToWrapper(WrapperToVec3(w)) == w <==> w.inner.a == 255
    ensures Vec3ToWrapper(v3).inner.a == 255
  {
  }

  /** The colour editor of a `U8Vec4` field takes the picked colour as is. */
  lemma U8Vec4ColorEdit(v: U8Vec4, picked: Color32Wrapper)
    ensures Vec4ToWrapper(AddColor(v, Vec4ToWrapper, WrapperToVec4, false, picked)) == picked
  {
    AddColorShowsPick(v, Vec4ToWrapper, WrapperToVec4, picked);
  }

  /** A `U8Vec3` field ignores the alpha of the picked colour. */
  lemma U8Vec3ColorEdit(v: U8Vec3, picked: Color32Wrapper)
    requires picked != Vec3ToWrapper(v)
    ensures AddColor(v, Vec3ToWrapper, WrapperToVec3, false, picked) ==
            U8Vec3(picked.inner.r, picked.inner.g, picked.inner.b)
  {
  }
}

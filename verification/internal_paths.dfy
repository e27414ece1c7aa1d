/** egui_inspect_derive/src/internal_paths.rs: the built-in editors the
    older derive picks by the name of a field's type. A read-only field's
    editor is preceded by `ui.disable()`; the code placed after the editor
    is always empty and so is not modelled. */
module InternalPaths {
  import opened Wrappers
  import opened Syntax
  import opened InspectDerive
  import opened InspectDeriveUtils

  /** The number types with a built-in editor. */
  const NumberNames: seq<string> := ["f64", "f32", "u8", "i8", "u16", "i16", "u32", "i32", "u64", "i64"]

  /** The names accepted by `path_is_internally_handled`. */
  const HandledNames: seq<string> :=
    ["f32", "f64", "u8", "i8", "u16", "i16", "u32", "i32", "u64", "i64",
     "usize", "isize", "bool", "String", "str", "Vec3", "Vec4"]

  /** The vector names the colour-vector branch matches; the last two are
      not in `HandledNames`. */
  const ColorVecNames: seq<string> := ["Vec3", "Vec4", "U8Vec3", "U8Vec4"]

  predicate PathIsInternallyHandled(s: string) {
    s in HandledNames
  }

  datatype BuiltinKind =
    | NumberSlider(min: real, max: real)                  // `inspect_with_slider`
    | NumberDrag(range: Option<(real, real)>)             // `inspect_with_drag_value`
    | StringMultiline                                     // `inspect_multiline`
    | StringSingleline                                    // `inspect_singleline`
    | ColorEditor                                         // `inspect_color`
    | GenericEditor                                       // `inspect_with_custom_id`

  /** A built-in editor call: `disabled` is the `ui.disable()` prefix. */
  datatype BuiltinCall = BuiltinCall(disabled: bool, kind: BuiltinKind, target: Access, caption: string)

  /** `handle_number_path`: a slider needs both `slider` and a range; a
      range alone bounds a drag value; otherwise an unbounded drag value
      (a `slider` switch without a range is ignored). */
  function NumberKind(attrs: InspectArgs): (k: BuiltinKind)
    ensures k.NumberSlider? <==> attrs.slider && attrs.range.Some?
    ensures k.NumberSlider? ==> k.min == attrs.range.value.min && k.max == attrs.range.value.max
    ensures k.NumberDrag? ==> (k.range.Some? <==> attrs.range.Some?)
    ensures k.NumberDrag? && k.range.Some? ==> k.range.value == (attrs.range.value.min, attrs.range.value.max)
  {
    if attrs.slider && attrs.range.Some? then NumberSlider(attrs.range.value.min, attrs.range.value.max)
    else if attrs.range.Some? then NumberDrag(Some((attrs.range.value.min, attrs.range.value.max)))
    else NumberDrag(None)
  }

  /** `handle_string_path`. */
  function StringKind(attrs: InspectArgs): (k: BuiltinKind)
    ensures k == StringMultiline || k == StringSingleline
    ensures k == StringMultiline <==> attrs.multiline
  {
    if attrs.multiline then StringMultiline else StringSingleline
  }

  /** `handle_color_vec_path`. */
  function ColorVecKind(attrs: InspectArgs): (k: BuiltinKind)
    ensures k == ColorEditor || k == GenericEditor
    ensures k == ColorEditor <==> attrs.color
  {
    if attrs.color then ColorEditor else GenericEditor
  }

  /** `try_handle_internal_path`: no built-in editor when the type has no
      name or the name is not handled; numbers, `String` and the colour
      vectors get their editor; the other handled names fall through to
      no editor. */
  function TryHandleInternalPath(target: Access, ident: Option<string>, ty: Type, attrs: InspectArgs,
                                 defaultName: string): (r: Option<BuiltinCall>)
    ensures r.Some? <==> (GetPathStr(ty).Some? &&
      (GetPathStr(ty).value in NumberNames || GetPathStr(ty).value == "String" || GetPathStr(ty).value in ["Vec3", "Vec4"]))
    ensures r.Some? ==> r.value.disabled == attrs.readOnly && r.value.target == target &&
                        r.value.caption == FieldLabel(ident, attrs, defaultName)
    ensures r.Some? && GetPathStr(ty).value in NumberNames ==> r.value.kind == NumberKind(attrs)
    ensures r.Some? && GetPathStr(ty).value == "String" ==> r.value.kind == StringKind(attrs)
    ensures r.Some? && GetPathStr(ty).value in ["Vec3", "Vec4"] ==> r.value.kind == ColorVecKind(attrs)
  {
    match GetPathStr(ty)
    case None => None
    case Some(s) =>
      if !PathIsInternallyHandled(s) then None
      else
        var caption := FieldLabel(ident, attrs, defaultName);
        if s in NumberNames then Some(BuiltinCall(attrs.readOnly, NumberKind(attrs), target, caption))
        else if s == "String" then Some(BuiltinCall(attrs.readOnly, StringKind(attrs), target, caption))
        else if s in ColorVecNames then Some(BuiltinCall(attrs.readOnly, ColorVecKind(attrs), target, caption))
        else None
  }

  /** Names that get no built-in editor although a branch seems meant for
      them: `usize`, `isize`, `bool` and `str` pass the handled check but
      match no branch; `U8Vec3` and `U8Vec4` have a branch but fail the
      handled check first. */
  lemma FallThroughNames(target: Access, ident: Option<string>, attrs: InspectArgs, defaultName: string, s: string)
    requires s in ["usize", "isize", "bool", "str", "U8Vec3", "U8Vec4"]
    ensures PathIsInternallyHandled(s) <==> s in ["usize", "isize", "bool", "str"]
    ensures TryHandleInternalPath(target, ident, PathType(false, [PathSegment(s, false)]), attrs, defaultName).None?
  {
  }

  /** The handled names are the ten number names and seven others. */
  lemma HandledNamesSplit(s: string)
    ensures PathIsInternallyHandled(s) <==>
      s in NumberNames || s in ["usize", "isize", "bool", "String", "str", "Vec3", "Vec4"]
    ensures |HandledNames| == 17
  {
  }

  /** A qualified or generic type never gets a built-in editor, and a
      reference gets the editor of the type it refers to. */
  lemma QualifiedPathsNotHandled(target: Access, ident: Option<string>, ty: Type, attrs: InspectArgs, defaultName: string, depth: nat)
    ensures TryHandleInternalPath(target, ident, PathType(false, [PathSegment("std", false), PathSegment("String", false)]), attrs, defaultName).None?
    ensures TryHandleInternalPath(target, ident, PathType(false, [PathSegment("Vec3", true)]), attrs, defaultName).None?
    ensures TryHandleInternalPath(target, ident, WrapRefs(ty, depth), attrs, defaultName) ==
            TryHandleInternalPath(target, ident, ty, attrs, defaultName)
  {
    PathStrThroughRefs(ty, depth);
  }
}

/** egui_inspect_derive/src/utils.rs: the type-name lookup used to pick a
    built-in editor, and the label of a field's default call. */
module InspectDeriveUtils {
  import opened Wrappers
  import opened Syntax
  import opened InspectDerive

  /** The type a field's type refers to once every `&` / `&mut` is
      stripped. */
  function Referent(ty: Type): (r: Type)
    ensures !r.RefType?
    ensures !ty.RefType? ==> r == ty
  {
    match ty
    case RefType(_, elem) => Referent(elem)
    case _ => ty
  }

  /** `get_path_str`: the identifier of a single-segment path type, seen
      through references; `None` for any other path (`get_ident` fails);
      and the empty string for every other type shape. */
  function GetPathStr(ty: Type): (r: Option<string>)
    ensures Referent(ty).OtherType? ==> r == Some("")
    ensures Referent(ty).PathType? ==> r == GetIdent(Referent(ty).leadingColon, Referent(ty).segments)
  {
    match ty
    case PathType(lc, segs) => GetIdent(lc, segs)
    case RefType(_, elem) => GetPathStr(elem)
    case OtherType => Some("")
  }

  /** A qualified path, such as `std::string::String`, is never recognised,
      even behind a reference; a plain identifier is, also behind any
      number of references. */
  lemma {:induction false} PathStrThroughRefs(ty: Type, depth: nat)
    ensures GetPathStr(WrapRefs(ty, depth)) == GetPathStr(ty)
    ensures GetPathStr(PathType(false, [PathSegment("std", false), PathSegment("string", false), PathSegment("String", false)])).None?
    ensures forall id: string :: GetPathStr(PathType(false, [PathSegment(id, false)])) == Some(id)
    decreases depth
  {
    if depth > 0 {
      PathStrThroughRefs(ty, depth - 1);
    }
  }

  /** Any number of references around a type has the same referent. */
  lemma {:induction false} ReferentThroughRefs(ty: Type, depth: nat)
    ensures Referent(WrapRefs(ty, depth)) == Referent(ty)
    decreases depth
  {
    if depth > 0 {
      ReferentThroughRefs(ty, depth - 1);
    }
  }

  /** `depth` shared references around `ty`. */
  function WrapRefs(ty: Type, depth: nat): Type
    decreases depth
  {
    if depth == 0 then ty else RefType(false, WrapRefs(ty, depth - 1))
  }

  /** The label of a field: the `name` attribute, else the field's
      identifier as written (not prettified), else the default name. */
  function FieldLabel(ident: Option<string>, attrs: InspectArgs, defaultName: string): (l: string)
    ensures attrs.name.Some? ==> l == attrs.name.value
    ensures attrs.name.None? && ident.Some? ==> l == ident.value
    ensures attrs.name.None? && ident.None? ==> l == defaultName
  {
    match attrs.name
    case Some(n) => n
    case None => ident.GetOr(defaultName)
  }

  /** `get_default_function_call`: the generic inspect call on
      `self.<ident>` under the field's label. */
  datatype DefaultCall = InspectWithCustomId(field: Option<string>, caption: string)

  function DefaultFunctionCall(ident: Option<string>, attrs: InspectArgs, defaultName: string): (c: DefaultCall)
    ensures c.field == ident
    ensures c.caption == FieldLabel(ident, attrs, defaultName)
  {
    InspectWithCustomId(ident, FieldLabel(ident, attrs, defaultName))
  }

  /** A renamed field shows its new name; a tuple field that is not
      renamed shows its default name, and a named one its identifier. */
  lemma LabelPrecedence(ident: string, rename: string, defaultName: string)
    ensures FieldLabel(Some(ident), DefaultInspectArgs().(name := Some(rename)), defaultName) == rename
    ensures FieldLabel(None, DefaultInspectArgs(), defaultName) == defaultName
    ensures FieldLabel(Some(ident), DefaultInspectArgs(), defaultName) == ident
  {
  }
}

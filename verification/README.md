# egui_field_editor and egui_inspect in Dafny

This project models the value rules of the egui_field_editor workspace:
- `egui_field_editor_derive` generates an `EguiInspect` implementation for a struct or enum from its `#[inspect(...)]` field attributes.
- `egui_inspect_derive` is the older `DefaultEguiInspect` derive.
- The runtime library `egui_inspect` supplies the widget helpers that the generated code calls.
- `egui_field_editor` implements `EguiInspect` for the base types.

The derive macros are modelled as pure functions, with plain data in and out:
- **Input:** field and variant shapes, each carrying its parsed attribute bag (`Result`, because attribute parsing can fail).
- **Output:** an abstract description of the generated code:
  - the per-field editor call;
  - the match arms, patterns and `Default` constructors of the enum combo box;
  - `compile_error!` fragments, and macro panics.

Rust's tokenizer (`str::parse::<TokenStream>`) is a function parameter `lex`. The immediate-mode widgets are modelled as one frame. The user's input for that frame is a parameter: the picked colour, the picked combo entry, the clicked buttons, the text edits.

Modules and files:

| module | file | models |
|---|---|---|
| `Wrappers` | wrappers.dfy | `Option`, `Result`, `u8` |
| `Text` | text.dfy | ASCII digits and case, decimal printing, `split`/`join` on a character |
| `Prettify` | prettify.dfy | `prettify_name`, as intended and as written (UTF-8 byte index) |
| `Syntax` | syntax.dfy | type shapes, generics, field/variant shapes, generated patterns and arms |
| `EditorAttrs` | editor_attrs.dfy | the field-editor attribute bags and `Multiline::from_meta` |
| `EditorDispatch` | editor_dispatch.dfy | `get_function_call`: which editor a field gets |
| `EditorCodegen` | editor_codegen.dfy | struct, enum, variant and execute-button code; the derive entry point |
| `InspectLib` | inspect_lib.dfy | `EguiInspector` builder, `add_color`, `add_number`, `add_combobox`, `add_button`, `add_string_convertible`, `Color32Wrapper` |
| `BaseTypeInspect` | base_types.dfy | `CharString`, child ids, `Vec` +/-, `Option` combo box, `U8Vec3`/`U8Vec4` colours |
| `InspectDerive` | inspect_derive.dfy | the older derive's struct, enum and variant code |
| `InspectDeriveUtils` | inspect_derive_utils.dfy | the older derive's `get_path_str` and default label |
| `InternalPaths` | internal_paths.dfy | the older derive's built-in editors chosen by type name |

## Model

| member | source | states |
|---|---|---|
| Text.DecimalRoundTrip | egui_field_editor_derive/src/lib.rs:366-401 | the decimal index printed into `Field {i}` reads back as `i`, so distinct indices give distinct labels |
| Text.JoinSplit | egui_field_editor_derive/src/utils.rs:15 | joining the pieces of `split('_')` with `_` gives the input back |
| Text.SplitJoin | egui_field_editor_derive/src/utils.rs:15 | splitting a `_`-join of underscore-free words gives those words back |
| Prettify.TrailingDigitsStart | egui_field_editor_derive/src/utils.rs:18-23 | the cut point of a word: everything after it is an ASCII digit, and the character before it is not |
| Prettify.TrailingDigitsStartUnique | egui_field_editor_derive/src/utils.rs:18-25 | a word made of letters ending in a non-digit, followed by digits, is cut exactly between the two |
| Prettify.PrettifyWordSpec | egui_field_editor_derive/src/utils.rs:25-37 | a word becomes its capitalised letters, followed by a space and the trailing digits when there are any; the first letter is upper-cased and the rest are kept |
| Prettify.AllDigitWord | egui_field_editor_derive/src/utils.rs:18-37 | an all-digit word keeps a leading space (`3` becomes ` 3`) |
| Prettify.PrettifyNameNoUnderscore | egui_field_editor_derive/src/utils.rs:14-41 | no prettified name contains `_`, and the empty name stays empty |
| Prettify.PrettifyJoinedWords | egui_field_editor_derive/src/utils.rs:14-41 | the name of underscore-free words joined by `_` is their non-empty words, prettified and joined by a space |
| Prettify.PrettifySingleWord | egui_field_editor_derive/src/utils.rs:14-41 | a name without `_` is prettified as one word |
| Prettify.PrettifyOneWord | egui_field_editor_derive/src/utils.rs:14-41 | a name without `_`, made of a part not ending in a digit and a (possibly empty) run of digits, becomes that part capitalised, followed by a space and the digits when there are any |
| Prettify.PrettifyFieldIndex | egui_field_editor_derive/src/utils.rs:14-41 | `Field i` prettifies to `Field  i`, with two spaces |
| Prettify.PrettifyExampleVec | egui_field_editor_derive/src/utils.rs:14-41 | `vec3` becomes `Vec 3` |
| Prettify.PrettifyExampleMat | egui_field_editor_derive/src/utils.rs:14-41 | `mat4x4` becomes `Mat4x 4`; only the trailing digits are split off |
| Prettify.PrettifyExampleSnakeCase | egui_field_editor_derive/src/utils.rs:14-41 | `snake_case_3` becomes `Snake Case  3` |
| Prettify.PrettifyExampleEmptyPieces | egui_field_editor_derive/src/utils.rs:15-16 | empty pieces between underscores are dropped: `__x__` becomes `X` |
| Prettify.PrettifyWordAsWrittenAgrees | egui_field_editor_derive/src/utils.rs:18-25 | the byte-indexed split agrees with the character-level model when the cut character is ASCII, and panics when it is wider |
| Prettify.PrettifyNameAsWrittenOnAscii | egui_field_editor_derive/src/utils.rs:14-41 | on ASCII names the code as written computes exactly the intended prettified name |
| Prettify.PrettifyNameAsWrittenPanics | egui_field_editor_derive/src/utils.rs:18-25 | as written, the name `é` makes `split_at` panic |
| Prettify.PrettifyNameIntendedOnWideChar | egui_field_editor_derive/src/utils.rs:14-41 | as intended, `café` becomes `Café` |
| Syntax.GetIdent | egui_inspect_derive/src/utils.rs:12-15 | a path has an identifier exactly when it has no leading `::`, one segment and no generic arguments, and then it is that segment |
| Syntax.AddTraitBounds | egui_field_editor_derive/src/lib.rs:163-172 | every type parameter gets the trait appended to its bounds; lifetimes and const parameters are unchanged; order and length are kept |
| Syntax.FlattenMembers | egui_field_editor_derive/src/lib.rs:331-364 | every emitted fragment comes from a field that emits code, and every field that emits code has its fragment in the output |
| Syntax.FlattenAppend | egui_field_editor_derive/src/lib.rs:331-364 | the emitted code of two fragment lists put together is the two emitted codes put together, and one fragment emits its code or nothing; so the emitted code keeps the fields' order |
| EditorAttrs.DefaultDatePickerParams | egui_field_editor_derive/src/lib.rs:42-46 | the date picker's switches are all on, the format is `%Y-%m-%d`, and there is no year range |
| EditorAttrs.DefaultAttributeArgs | egui_field_editor_derive/src/lib.rs:96-123 | a field without attributes has no name, tooltip, custom function or editor option, and every switch is off |
| EditorAttrs.MultilineFromMeta | egui_field_editor_derive/src/lib.rs:57-78 | `multiline` and `multiline()` give 4 rows; `multiline = n` and `multiline(n)` give `n` rows for `n < 256`; `= n` with `n >= 256` is out of range and `= <non-literal>` is an unexpected expression; `(n)` with `n >= 256` is an invalid `u8`, and any other token list fails to parse |
| EditorAttrs.MultilineSpellingsAgree | egui_field_editor_derive/src/lib.rs:57-78 | `multiline = n` and `multiline(n)` both succeed or both fail, and agree when they succeed |
| EditorAttrs.ExecuteBtnFromArgs | egui_field_editor_derive/src/lib.rs:79-89 | `is_method` defaults to true; the other arguments are kept |
| EditorDispatch.EffectiveReadOnly | egui_field_editor_derive/src/utils.rs:43-191 | an editor is read-only when its caller or its own attribute is, and only then |
| EditorDispatch.CastIdent | egui_field_editor_derive/src/utils.rs:83-104 | the number cast is the type's identifier when it is a plain one-segment path; there is none for any other type shape |
| EditorDispatch.FieldCaption | egui_field_editor_derive/src/utils.rs:46-55 | the label is the `name` attribute, else the prettified identifier, else the prettified default name |
| EditorDispatch.FieldCaptionDerived | egui_field_editor_derive/src/utils.rs:46-55 | a label that is not renamed has no `_`; with no identifier and an empty default name it is empty |
| EditorDispatch.TupleFieldCaption | egui_field_editor_derive/src/lib.rs:366-401 | tuple field `i` is labelled `Field  i` unless renamed |
| EditorDispatch.FunctionCall | egui_field_editor_derive/src/utils.rs:43-191 | a call keeps the access, label, tooltip (empty if absent) and read-only flag; it is a `compile_error!` exactly when the custom function does not tokenize, with the tokenizer's message; with the corrected `prettify_name` (see Left out), the macro panics exactly when a slider or range field's type is not a plain identifier; a custom call names the tokenized function, a slider or number carries the attribute's bounds and the field type as cast, a multiline editor the attribute's rows, a file picker its filters and a date picker its parameters |
| EditorDispatch.FirstTriggered | egui_field_editor_derive/src/utils.rs:63-189 | the rule chosen is the first of the list that the attributes trigger, and the default only when none does |
| EditorDispatch.Chosen | egui_field_editor_derive/src/utils.rs:63-189 | the chosen rule is triggered, and every rule ranked above it is not |
| EditorDispatch.Rank | egui_field_editor_derive/src/utils.rs:63-189 | each rule sits at its own position in the priority order custom_fn, slider, range, from_string, multiline, color, file, date |
| EditorDispatch.DispatchFollowsPriority | egui_field_editor_derive/src/utils.rs:63-189 | the editor a field gets is the one its highest-priority attribute asks for; a failing row gives an error and does not fall back to a lower row |
| EditorDispatch.ChosenByFields | egui_field_editor_derive/src/utils.rs:63-189 | the chosen rule written as the source's if-chain over the attributes |
| EditorDispatch.LowerPriorityIgnored | egui_field_editor_derive/src/utils.rs:63-189 | attributes ranked below the chosen one do not change the generated call |
| EditorDispatch.SliderWinsOverRange | egui_field_editor_derive/src/utils.rs:83-104 | with both `slider` and `range`, the slider bounds are used, cast to the field's type |
| EditorDispatch.FromStringEditors | egui_field_editor_derive/src/utils.rs:104-122 | `from_string` gives the string-conversion editor, multiline with the row count when `multiline` is also set |
| EditorDispatch.DefaultFieldCall | egui_field_editor_derive/src/utils.rs:181-189 | a field without editor attributes gets the generic `inspect_with_custom_id` call |
| EditorCodegen.ExecuteButton | egui_field_editor_derive/src/lib.rs:173-206 | a button calls the tokenized function, on `self` when it is a method; its caption is the `caption` argument, else the prettified function name; a name that does not tokenize gives `compile_error!` with the tokenizer's message |
| EditorCodegen.ExecuteButtons | egui_field_editor_derive/src/lib.rs:173-206 | one button per `execute_btn`, in order |
| EditorCodegen.ButtonDefaults | egui_field_editor_derive/src/lib.rs:79-89 | a bare `execute_btn(fn_name)` calls `self.fn_name()` with the prettified name and no tooltip |
| EditorCodegen.FieldCode | egui_field_editor_derive/src/lib.rs:331-364 | a failing field is its own `compile_error!`; a hidden field emits nothing; otherwise the dispatched call, with the inherited read-only flag or-ed in |
| EditorCodegen.FieldCodeIsDispatch | egui_field_editor_derive/src/lib.rs:331-364 | a visible field's code is exactly `get_function_call` on its attributes |
| EditorCodegen.NamedStructSlots | egui_field_editor_derive/src/lib.rs:331-364 | one fragment per named field, editing `self.name`, with an empty default name |
| EditorCodegen.NamedStructCalls | egui_field_editor_derive/src/lib.rs:331-364 | every call of a named struct edits a field of `self` by name |
| EditorCodegen.NamedStructHiddenIgnored | egui_field_editor_derive/src/lib.rs:331-364 | a hidden named field changes nothing in the struct's code |
| EditorCodegen.NamedStructAllVisible | egui_field_editor_derive/src/lib.rs:331-364 | with no hidden or failing field, field `i` gets the i-th call |
| EditorCodegen.TupleStructSlots | egui_field_editor_derive/src/lib.rs:366-401 | one fragment per tuple field, editing `self.i`, with default name `Field i` |
| EditorCodegen.UnnamedStructCalls | egui_field_editor_derive/src/lib.rs:366-401 | the first failing field aborts the whole struct with its message; otherwise the visible fields' calls, in order |
| EditorCodegen.TupleCallsUpToSlots | egui_field_editor_derive/src/lib.rs:366-385 | the calls the loop has pushed after the first n fields are those fields' fragments, the hidden ones left out |
| EditorCodegen.TupleStructCallsIndexed | egui_field_editor_derive/src/lib.rs:366-401 | every tuple-struct call edits `self.i` of a visible field `i` and is labelled `Field  i` unless renamed |
| EditorCodegen.VariantCaption | egui_field_editor_derive/src/lib.rs:223-329 | a variant is labelled by its `name` attribute, else by its identifier |
| EditorCodegen.TupleVariantSlots | egui_field_editor_derive/src/lib.rs:429-492 | tuple-variant field `i` is edited through the binding `field{i}` |
| EditorCodegen.StructVariantSlots | egui_field_editor_derive/src/lib.rs:495-563 | struct-variant fields are edited through bindings named like the fields |
| EditorCodegen.NamedBinding | egui_field_editor_derive/src/lib.rs:530-554 | the pattern entry names its field, and ignores it exactly when the field is hidden |
| EditorCodegen.VariantCodeOf | egui_field_editor_derive/src/lib.rs:403-563 | each variant's arms name it and carry its label; its selection builds it with one default per field (hidden ones included) |
| EditorCodegen.VariantPatternsFit | egui_field_editor_derive/src/lib.rs:403-563 | both match arms of every variant are patterns Rust accepts for that variant |
| EditorCodegen.TupleVariantReadOnly | egui_field_editor_derive/src/lib.rs:429-492 | each tuple-variant call edits a visible field and is read-only when the field or the variant is |
| EditorCodegen.StructVariantReadOnly | egui_field_editor_derive/src/lib.rs:495-563 | each struct-variant call edits a visible field and is read-only when the field or the variant is |
| EditorCodegen.ReadOnlyVariantFields | egui_field_editor_derive/src/lib.rs:429-563 | a read-only variant makes every editor in its arm read-only |
| EditorCodegen.VisibleVariantsMembers | egui_field_editor_derive/src/lib.rs:223-260 | a variant is kept exactly when it is one of the enum's, its attributes parse and it is not hidden |
| EditorCodegen.VisibleVariantsAppend | egui_field_editor_derive/src/lib.rs:223-260 | the kept variants keep the enum's order: keeping distributes over concatenation and a single variant is kept or dropped whole |
| EditorCodegen.EnumVariantCodes | egui_field_editor_derive/src/lib.rs:223-260 | the first failing variant replaces the enum's code by its message; otherwise the visible variants' code, in order |
| EditorCodegen.EnumCodeOf | egui_field_editor_derive/src/lib.rs:223-329 | one selection per visible variant, plus one wildcard arm in each match exactly when a variant is hidden |
| EditorCodegen.EnumWildcards | egui_field_editor_derive/src/lib.rs:285-288 | wildcard arms appear exactly when some variant is hidden, and then last |
| EditorCodegen.EnumSelectDefaults | egui_field_editor_derive/src/lib.rs:223-329 | the k-th selection builds the k-th visible variant with defaults, under its label |
| EditorCodegen.EnumArmsFit | egui_field_editor_derive/src/lib.rs:223-329 | every non-wildcard arm fits the variant it names |
| EditorCodegen.FirstFieldFailure | egui_field_editor_derive/src/lib.rs:366-385 | the message of the first tuple field whose attributes fail, and none exactly when every field parses |
| EditorCodegen.BodyOf | egui_field_editor_derive/src/lib.rs:207-221 | a union aborts; a unit struct emits nothing; a named struct emits its field calls; a tuple struct or enum is replaced by the message of its first failing field or variant exactly when one fails, and otherwise emits its visible fields' calls or its combo box |
| EditorCodegen.DataCode | egui_field_editor_derive/src/lib.rs:207-221 | the body built with the tuple-struct loop is the body `get_code_for_data` describes |
| EditorCodegen.NamedStructBody | egui_field_editor_derive/src/lib.rs:207-221 | a named struct whose fields all parse and are visible gets field `i`'s own editor call in position `i` |
| EditorCodegen.Derive | egui_field_editor_derive/src/lib.rs:125-161 | the impl's type parameters gain the `EguiInspect` bound and its lifetime and const parameters are unchanged; its body is the data's code and then come the buttons, one per `execute_btn`; type-level attributes that fail give one `compile_error!`; a union makes the macro panic |
| InspectLib.NewInspector | egui_inspect/src/lib.rs:168-170 | a new inspector is editable, untitled and unsalted |
| InspectLib.NewReadOnlyInspector | egui_inspect/src/lib.rs:174-176 | the read-only constructor differs only in being read-only |
| InspectLib.SetReadOnly | egui_inspect/src/lib.rs:179-182 | `read_only()` sets the flag and changes nothing else |
| InspectLib.WithIdSalt | egui_inspect/src/lib.rs:183-188 | `id_salt` sets the salt id and changes nothing else |
| InspectLib.WithTitle | egui_inspect/src/lib.rs:189-194 | `with_title` sets the title and changes nothing else |
| InspectLib.NewReadOnlyIsReadOnlyNew | egui_inspect/src/lib.rs:168-182 | the read-only constructor equals the plain one followed by `read_only()` |
| InspectLib.BuilderCallsCommute | egui_inspect/src/lib.rs:179-194 | the builder calls commute with each other; repeating one keeps the last value |
| InspectLib.Inspect | egui_inspect/src/lib.rs:332-334 | `inspect` is `inspect_with_custom_id` under the NULL id with the same arguments |
| InspectLib.InspectorUi | egui_inspect/src/lib.rs:197-215 | the title, if any, is the heading; the object is inspected unlabelled, with the salt as its parent id or under the NULL id, and with the inspector's read-only flag |
| InspectLib.UiParentFollowsSalt | egui_inspect/src/lib.rs:197-215 | a salted inspector roots its ids at the salt; an unsalted one at NULL |
| InspectLib.WrapperRoundTrip | egui_inspect/src/lib.rs:671-700 | `Color32` to wrapper and back is the identity, and wrapper equality is colour equality |
| InspectLib.AddColor | egui_inspect/src/lib.rs:534-546 | the data changes only when the picker reports a different colour and the editor is not read-only, and then becomes that colour converted back |
| InspectLib.AddColorShowsPick | egui_inspect/src/lib.rs:534-546 | when conversion from the wrapper is lossless, the edited value shows exactly the picked colour |
| InspectLib.AddNumber | egui_inspect/src/lib.rs:470-476 | the drag value is bounded exactly when a range is given, and then by that range |
| InspectLib.DragFrame | egui_inspect/src/lib.rs:470-476 | in one frame, a read-only or untouched drag value keeps its value, and a drag lands inside the range when one is given and exactly where the user drags otherwise |
| InspectLib.NumberStaysInRange | egui_inspect/src/lib.rs:470-476 | a number edited with a range and starting in it stays in it over any sequence of drags; a read-only one never changes |
| InspectLib.AddCombobox | egui_inspect/src/lib.rs:548-561 | the index stays in range; a valid pick on an enabled box is taken, otherwise the index is kept |
| InspectLib.ComboboxStaysInRange | egui_inspect/src/lib.rs:548-561 | over any number of frames the index stays in range, and a read-only box never changes it |
| InspectLib.AddButton | egui_inspect/src/lib.rs:563-574 | the action runs exactly when the button is clicked and not read-only |
| InspectLib.ButtonRunsPerClick | egui_inspect/src/lib.rs:563-574 | over any sequence of frames the action runs once per click of an enabled button and never for a read-only one |
| InspectLib.AddStringConvertible | egui_inspect/src/lib.rs:576-600 | the value is edited as its text; a text that parses replaces it, and one that does not keeps it and marks it invalid |
| InspectLib.ConvertibleIdleFrame | egui_inspect/src/lib.rs:576-600 | a frame without edits keeps a value whose text parses back to it |
| InspectLib.ConvertibleRejectsInvalid | egui_inspect/src/lib.rs:576-587 | an edit that does not parse leaves the value as it was and shows the error |
| BaseTypeInspect.NewCharString | egui_field_editor/src/base_type_inspect.rs:118-122 | a new buffer holds exactly one character |
| BaseTypeInspect.CharOf | egui_field_editor/src/base_type_inspect.rs:123-125 | reading a one-character buffer gives the character it was made from |
| BaseTypeInspect.CharStringRoundTrip | egui_field_editor/src/base_type_inspect.rs:118-125 | `CharString::new(c).char()` is `c` |
| BaseTypeInspect.InsertText | egui_field_editor/src/base_type_inspect.rs:132-139 | a non-empty insertion replaces the buffer by its first character, an empty one changes nothing, and the count returned is 0 |
| BaseTypeInspect.DeleteCharRange | egui_field_editor/src/base_type_inspect.rs:140 | deletion leaves the buffer unchanged |
| BaseTypeInspect.EditsKeepOneChar | egui_field_editor/src/base_type_inspect.rs:116-144 | after any sequence of edits the buffer holds one character: the first of the last non-empty insertion, or the original |
| BaseTypeInspect.InspectChar | egui_field_editor/src/base_type_inspect.rs:145-151 | the `char` editor writes back the edited character; read-only leaves it |
| BaseTypeInspect.InspectCharExamples | egui_field_editor/src/base_type_inspect.rs:145-151 | typing `xyz` gives `x`; deleting keeps the old character |
| BaseTypeInspect.ContainerIds | egui_field_editor/src/base_type_inspect.rs:168-169 | under a NULL parent a container takes an automatic id and passes NULL on; otherwise both are `parent.with(label)` |
| BaseTypeInspect.NullRootStaysNull | egui_field_editor/src/base_type_inspect.rs:267-272 | under a NULL root every nested container passes NULL on |
| BaseTypeInspect.InspectRootsAtNull | egui_inspect/src/lib.rs:332-334 | `inspect` roots every nested container at the NULL id, so each takes an automatic id rather than one built from its labels |
| BaseTypeInspect.DescendDepth | egui_field_editor/src/base_type_inspect.rs:208-209 | under a non-NULL root each nesting level adds one level to the id |
| BaseTypeInspect.DescendPathInjective | egui_field_editor/src/base_type_inspect.rs:208-209 | under a non-NULL root, different label paths give different ids |
| BaseTypeInspect.ItemIdsDistinct | egui_field_editor/src/base_type_inspect.rs:228 | the items `Item i` of one container get pairwise distinct ids |
| BaseTypeInspect.VecButtons | egui_field_editor/src/base_type_inspect.rs:236-247 | `+` pushes the default and `-` pops the last element (nothing when empty), `+` before `-`; disabled when read-only; without `-` the old elements are kept |
| BaseTypeInspect.VecPushPop | egui_field_editor/src/base_type_inspect.rs:236-247 | `+` then `-` gives the vector back; `-` on an empty vector changes nothing; `+` adds one element |
| BaseTypeInspect.SelectableValue | egui_field_editor/src/base_type_inspect.rs:301-313 | a clicked entry sets the value, and reports a change exactly when the value differed |
| BaseTypeInspect.OptionSelectedText | egui_field_editor/src/base_type_inspect.rs:292-295 | the combo box shows `None` exactly for `None` and `Some` exactly for `Some` |
| BaseTypeInspect.OptionCombo | egui_field_editor/src/base_type_inspect.rs:290-313 | picking `None` clears the value, picking `Some` sets `Some(default)`; no pick or read-only keeps it |
| BaseTypeInspect.OptionSomeResets | egui_field_editor/src/base_type_inspect.rs:301-313 | picking `Some` again resets a held value to the default |
| BaseTypeInspect.FromRgb | egui_field_editor/src/base_type_inspect.rs:463-465 | `from_rgb` stores the channels and full alpha |
| BaseTypeInspect.FromRgbaPremultiplied | egui_field_editor/src/base_type_inspect.rs:474-476 | `from_rgba_premultiplied` stores the four bytes as given |
| BaseTypeInspect.ColorVectorRoundTrips | egui_field_editor/src/base_type_inspect.rs:457-477 | vector to colour and back is the identity; colour to `U8Vec3` and back is the identity exactly for opaque colours; `U8Vec4` keeps every colour |
| BaseTypeInspect.U8Vec4ColorEdit | egui_field_editor/src/base_type_inspect.rs:468-477 | a `U8Vec4` colour editor takes the picked colour exactly |
| BaseTypeInspect.U8Vec3ColorEdit | egui_field_editor/src/base_type_inspect.rs:457-466 | a `U8Vec3` colour editor takes the picked channels and drops the alpha |
| InspectDerive.DefaultInspectArgs | egui_inspect_derive/src/lib.rs:39-52 | every switch is off and every option is absent |
| InspectDerive.NamedStructSlot | egui_inspect_derive/src/lib.rs:188-209 | a failing field is its own `compile_error!`; a hidden field emits nothing; otherwise the call edits `self.name` with an empty default name |
| InspectDerive.NamedStructCallsVisible | egui_inspect_derive/src/lib.rs:187-223 | a named struct's code is the visible fields' calls in order |
| InspectDerive.UnnamedStructCalls | egui_inspect_derive/src/lib.rs:224-259 | the first failing field aborts with its message; otherwise every field gets a call, hidden or not, editing `self.i` with default name `Field i` |
| InspectDerive.TupleStructErrorMalformed | egui_inspect_derive/src/lib.rs:224-238 | as written, a tuple struct with a failing field emits a fragment that opens with a bare `:`, for instance for `struct T(#[inspect(bogus)] u8);` |
| InspectDerive.TupleVariantSlot | egui_inspect_derive/src/lib.rs:317-342 | tuple-variant field `i` is edited through `field{i}` with default name `Field i`; hidden emits nothing; a failing field gives its own `compile_error!` with the attribute message (corrected, see Findings) |
| InspectDerive.TupleVariantErrorAsWritten | egui_inspect_derive/src/lib.rs:323-330 | as written, a tuple-variant field emits an error fragment exactly when its attributes fail, carrying their message |
| InspectDerive.TupleVariantErrorMalformed | egui_inspect_derive/src/lib.rs:323-330 | as written, that fragment opens with a bare `:` (a tuple field has no identifier), while the corrected slot carries the same message as a plain `compile_error!` |
| InspectDerive.StructVariantSlot | egui_inspect_derive/src/lib.rs:387-403 | struct-variant fields are edited through their names; hidden emits nothing; a failing one is its own `compile_error!` |
| InspectDerive.NamedBindingAsWritten | egui_inspect_derive/src/lib.rs:387-405 | as written, a hidden field is left out of the variant's pattern |
| InspectDerive.NamedBinding | egui_inspect_derive/src/lib.rs:387-405 | as intended, every field is in the pattern, a hidden one as `name: _` |
| InspectDerive.VariantCodeOf | egui_inspect_derive/src/lib.rs:261-414 | a variant's arms name it and are labelled by its identifier; its selection builds it with one default per field (one for a single field, n for n fields); its struct-variant pattern is the corrected one (see Left out) |
| InspectDerive.VariantPatternsFit | egui_inspect_derive/src/lib.rs:261-414 | with the intended binding, both arms of every variant are patterns Rust accepts |
| InspectDerive.HiddenFieldBreaksPattern | egui_inspect_derive/src/lib.rs:387-408 | as written, `V { a }` with `a` hidden gives the pattern `V {}`, which Rust rejects |
| InspectDerive.StructVariantAsWrittenFits | egui_inspect_derive/src/lib.rs:387-408 | as written, a struct variant's arm fits exactly when none of its fields is hidden |
| InspectDerive.VisibleVariantsMembers | egui_inspect_derive/src/lib.rs:111-139 | a variant is kept exactly when it is one of the enum's, its attributes parse and it is not hidden |
| InspectDerive.VisibleVariantsAppend | egui_inspect_derive/src/lib.rs:111-139 | the kept variants keep the enum's order: keeping distributes over concatenation and a single variant is kept or dropped whole |
| InspectDerive.EnumVariantCodes | egui_inspect_derive/src/lib.rs:111-139 | the first failing variant replaces the enum's code by its message; otherwise the visible variants' code, in order |
| InspectDerive.EnumCodeOf | egui_inspect_derive/src/lib.rs:105-185 | one selection per visible variant, plus one wildcard arm in each match exactly when a variant is hidden |
| InspectDerive.EnumArms | egui_inspect_derive/src/lib.rs:129-144 | wildcard arms appear exactly when a variant is hidden, and come after every other arm |
| InspectDerive.EnumArmsFit | egui_inspect_derive/src/lib.rs:129-144 | with the corrected struct-variant pattern, the arms of the k-th shown variant fit that variant and its caption is the identifier |
| InspectDerive.DataCode | egui_inspect_derive/src/lib.rs:89-104 | a union aborts; a unit struct emits nothing; a named struct emits its field calls; a tuple struct or enum is replaced by the message of its first failing field or variant exactly when one fails, and otherwise a tuple struct's calls are exactly those of `UnnamedStructCalls`, one per field, and an enum gets its combo box |
| InspectDerive.Derive | egui_inspect_derive/src/lib.rs:54-87 | the impl's type parameters gain the `EguiInspect` bound, its lifetime and const parameters are unchanged, and its body is the data's code; a union aborts |
| InspectDeriveUtils.Referent | egui_inspect_derive/src/utils.rs:17 | references are seen through, and a type that is not a reference is its own referent |
| InspectDeriveUtils.ReferentThroughRefs | egui_inspect_derive/src/utils.rs:17 | any number of references around a type have that type's referent |
| InspectDeriveUtils.GetPathStr | egui_inspect_derive/src/utils.rs:9-20 | through references: a path gives its identifier, or nothing when it is not a plain identifier; any other shape gives the empty string |
| InspectDeriveUtils.PathStrThroughRefs | egui_inspect_derive/src/utils.rs:9-20 | any number of references give the same name; a qualified path gives none |
| InspectDeriveUtils.FieldLabel | egui_inspect_derive/src/utils.rs:25-34 | the label is the `name` attribute, else the identifier as written, else the default name |
| InspectDeriveUtils.DefaultFunctionCall | egui_inspect_derive/src/utils.rs:22-39 | the default call edits the field under its label |
| InspectDeriveUtils.LabelPrecedence | egui_inspect_derive/src/utils.rs:25-34 | a rename wins over the identifier, and the identifier over the default name |
| InternalPaths.NumberKind | egui_inspect_derive/src/internal_paths.rs:78-104 | a slider needs both `slider` and a range; a range alone bounds a drag value; otherwise the drag value is unbounded |
| InternalPaths.StringKind | egui_inspect_derive/src/internal_paths.rs:131-145 | `multiline` picks the multiline editor, otherwise single-line |
| InternalPaths.ColorVecKind | egui_inspect_derive/src/internal_paths.rs:171-185 | `color` picks the colour editor, otherwise the generic one |
| InternalPaths.TryHandleInternalPath | egui_inspect_derive/src/internal_paths.rs:29-52 | a built-in editor exactly for the number names, `String`, `Vec3` and `Vec4`; it is disabled when read-only and uses the field's label |
| InternalPaths.FallThroughNames | egui_inspect_derive/src/internal_paths.rs:9-52 | `usize`, `isize`, `bool` and `str` are handled yet get no editor; `U8Vec3` and `U8Vec4` are not handled |
| InternalPaths.HandledNamesSplit | egui_inspect_derive/src/internal_paths.rs:9-27 | the seventeen handled names are the ten number types and seven others |
| InternalPaths.QualifiedPathsNotHandled | egui_inspect_derive/src/internal_paths.rs:35-41 | qualified or generic paths get no built-in editor; references get their referent's |

## Left out

- Widget rendering, layout widths (the `0.2`/`0.8` label and field proportions) and tooltips on hover are f32 layout. The collapsing headers' `[N]` and `[len]` suffixes are display text.
- The f32 colour conversions of `Vec3`/`Vec4` are floating point with saturating casts.
- `egui_dnd` drag-and-drop reordering (`update_vec`) is an external library.
- The `Rc<RefCell>`, `Arc<Mutex>` and `Arc<RwLock>` implementations are borrow and lock plumbing.
- The date picker's id hashing uses an opaque hash, and `Id::with` is modelled as a free constructor (hash collisions are not modelled).
- The nalgebra implementations only place drag values.
- The example programs are application demos.
- egui_inspect/src/base_type_inspect.rs is widget rendering. Its vector and colour rules are the ones modelled from the field-editor crate.
- syn/darling parsing, spans and `quote!` token streams are out. Attribute parsing is a `Result` on each field. Generated code is abstract data.
- `darling`'s other spellings of a `u8` (string literals and the like) are folded into the expression shapes `IntLit`/`OtherExpr`.
- Upper-casing is ASCII only; Rust's Unicode case mapping, which can change a letter into several, is not modelled.
- The older derive calls a `utils::get_function_call` that its utils.rs does not define, and it does not declare `internal_paths` as a module. Its parts are modelled one by one and not wired together. A field's call is recorded with its arguments.
- `handle_number_path`'s `print!` of its arguments is a side effect at compile time.
- The `egui_field_editor` crate's own lib.rs is not part of this model. Its `Color32Wrapper`, `add_*` helpers and `EguiInspect` are taken to be those of `egui_inspect`.
- The date editor's generated call uses the `id` variable of the surrounding generated code. It is modelled as the `Date` editor kind with its parameters.
- Text edits are modelled as `insert_text`/`delete_char_range` requests. The trait's other editing methods are built from these two.
- BaseTypeInspect.OptionCombo: the inner editor of a `Some` value (an unlabelled `inspect_with_custom_id` under the option's id) is not modelled.
- egui_inspect's `add_string_convertible_multiline` (egui_inspect/src/lib.rs:589-593) always shows 4 rows. This is the `ConvertibleMultilineRows` constant. The field-editor crate's helper of the same name, which its derive calls with the field's row count (egui_field_editor_derive/src/utils.rs:110), lives in that crate's runtime library, which is not part of this model.
- InspectLib.AddStringConvertible: a read-only editor still parses the displayed text back. A value whose `Display`/`FromStr` do not round-trip can change, and only values that do round-trip are stated to be kept.
- EditorDispatch.FieldCaption, EditorDispatch.FunctionCall, EditorDispatch.DefaultFieldCall, EditorCodegen.ExecuteButton, EditorCodegen.ButtonDefaults: these use the corrected `prettify_name` (first row of Findings). As written, the macro panics on a field or button name whose last non-digit character is not ASCII, such as `é`, where the model gives the call. On all-ASCII names the two agree (`Prettify.PrettifyNameAsWrittenOnAscii`).
- InspectDerive.VariantCodeOf, InspectDerive.EnumArmsFit: the field-editing arm of a struct variant uses the corrected pattern (second row of Findings), in which a hidden field appears as `name: _`. As written, a hidden field is left out, and the arm then fits only when no field of the variant is hidden (`InspectDerive.StructVariantAsWrittenFits`). The calls in the arm are the same either way (`InspectDerive.StructVariantCallsAgree`).
- InspectDerive.UnnamedStructCalls, InspectDerive.DataCode: a failing tuple field's message is modelled as reaching the user as a `compile_error!` block (third row of Findings). As written, the fragment opens with a bare `:`.
- InspectDerive.TupleVariantSlot, InspectDerive.VariantCodeOf: a failing tuple-variant field's message is modelled as its own `compile_error!` inside the arm (fourth row of Findings). As written, the fragment opens with a bare `:` (`InspectDerive.TupleVariantErrorMalformed`).
- InspectDerive.EnumVariantCodes: as written, a failing variant's fragment is `V: { compile_error!(..); }`, prefixed by the variant's name and a colon. The model records only its message.
- InspectLib.DragFrame: clamping a drag into the range is egui's `DragValue::range` behaviour, outside this workspace. How egui treats a value that already lies outside the range is not modelled. Values are integers: the runtime is generic over egui's `Numeric` (f32, f64 and the integer types), and floating-point rounding and NaN are not modelled. The requires `min <= max` leaves out an inverted range, which `add_number` and the derive accept and hand to egui unchanged.

## Notes

- `EditorCodegen.NamedBinding` and `InspectDerive.NamedBinding`, and the two `VisibleVariants`, state the same rule. Each crate implements it in its own code over its own attribute type, so the model keeps one copy per crate.
- The older derive's tuple-variant selection writes one `Default::default()` for one field and n of them for n fields. Both are `TupleCtor(v, n)`.

## Findings

| source | as written | input that shows it | evidently intended | confidence | as-written member | corrected member |
|---|---|---|---|---|---|---|
| egui_field_editor_derive/src/utils.rs:18-25 | the cut index is the byte index of the last non-digit plus one, passed to `split_at` | the field name `é` (any name whose last non-digit is not ASCII): `split_at(1)` falls inside the two-byte `é` and panics | cut after the whole last non-digit character (`i + c.len_utf8()`), so `café` becomes `Café` | not executed; follows from `split_at` panicking off a char boundary | Prettify.PrettifyNameAsWrittenPanics | Prettify.PrettifyNameIntendedOnWideChar |
| egui_inspect_derive/src/lib.rs:387-408 | a hidden field of a struct variant is skipped before its name is added to the arm's pattern | `enum E { V { #[inspect(hidden)] a: u8 } }` gives the arm `E::V {} => ...`, which Rust rejects (pattern does not mention field `a`) | mention the hidden field as `a: _`, as egui_field_editor_derive/src/lib.rs:550-554 does | not executed; Rust requires every field in a struct pattern without `..` | InspectDerive.HiddenFieldBreaksPattern | InspectDerive.VariantPatternsFit |
| egui_inspect_derive/src/lib.rs:224-238 | a tuple field whose attributes fail is reported as `#ident: { compile_error!(#msg); }` with the field's identifier, which a tuple field does not have | `struct T(#[inspect(bogus)] u8);` gives the body `: { compile_error!("Unknown field: `bogus`"); }`, which does not parse, so the darling message is not what the user sees | emit the block `{ compile_error!(#msg); }`, as the named-field branch at egui_inspect_derive/src/lib.rs:194-200 does | not executed; an absent `Option<Ident>` emits no tokens | InspectDerive.TupleStructErrorMalformed | InspectDerive.DataCode |
| egui_inspect_derive/src/lib.rs:323-330 | a tuple-variant field whose attributes fail is reported as `#ident: { compile_error!(#msg); }` with the field's identifier, which a tuple field does not have | `enum E { V(#[inspect(bogus)] u8) }` gives, inside the arm of `E::V`, `: { compile_error!("Unknown field: `bogus`"); }`, which does not parse | emit the block `{ compile_error!(#msg); }`, as the named-field branch at egui_inspect_derive/src/lib.rs:194-200 does | not executed; an absent `Option<Ident>` emits no tokens | InspectDerive.TupleVariantErrorMalformed | InspectDerive.TupleVariantSlot |

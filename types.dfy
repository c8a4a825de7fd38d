/**
  The parts of the application's data types that the modelled helpers read:
  a template field (types/api) and the per-flow tab state (types/tabs).
  Optional properties of the TypeScript types are `Option`s.
 */
module Types {
  import opened Wrappers

  /** TemplateVariableType: one field of a node template. */
  datatype TemplateField = TemplateField(
    typ: string,
    show: bool,
    inputTypes: Option<seq<string>>,
    name: Option<string>,
    displayName: Option<string>)

  /** A string property as a JavaScript condition sees it: present and non-empty. */
  predicate Truthy(s: Option<string>)
  {
    s.Some? && s.value != []
  }

  /** The `formKeysData` of a tab; `inputKeys` holds the keys of `input_keys`, in enumeration order. */
  datatype FormKeysData = FormKeysData(inputKeys: Option<seq<string>>)

  datatype TabState = TabState(formKeysData: Option<FormKeysData>)
}

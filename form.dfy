/** The values a submitted HTML form carries, as `FormData.get` hands them to a route action. */
module Form {
  import opened Wrappers

  /** A `FormDataEntryValue`: a text field, or an uploaded file. */
  datatype Entry = Text(text: string) | Upload

  /** A submitted form: field name to value. */
  type Submission = map<string, Entry>

  /** `form.get(name)`: the value, or `null` when the field is missing. */
  function Get(form: Submission, name: string): Option<Entry> {
    if name in form then Some(form[name]) else None
  }

  /** JavaScript truthiness of a `form.get` result: `null` and `''` are falsy, a file is truthy. */
  predicate Truthy(v: Option<Entry>) {
    v.Some? && (v.value.Upload? || v.value.text != "")
  }

  /** `value.toString()`: the text itself, or the string a `File` object converts to. */
  function ToText(e: Entry): string {
    match e
    case Text(s) => s
    case Upload => "[object File]"
  }
}

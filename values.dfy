/**
 * The JavaScript values that the content routes handle: metadata records,
 * the exports of a loaded document module, and the view record built from
 * them. An object is a map from property name to value; reading a property
 * that is not there yields `Undefined`.
 */
module JsValues {

  datatype Option<+T> = None | Some(value: T)

  /** A value stored in a metadata record or exported by a document module. */
  datatype Value =
    | Undefined
    | Null
    | Bool(b: bool)
    | Str(s: string)
    | Strings(items: seq<string>)   // an array of strings, e.g. `translations`
    | Asset(path: string)           // what the bundler yields for an imported image
    | Function(name: string)        // a component or a helper exported by a module
    | Element(element: Element)     // a React element
    | Obj(fields: map<string, Value>)

  /** The React elements the routes build or carry. */
  datatype Element =
    | Paragraph(child: Value)                // `<p>{child}</p>`
    | Meta(name: string, content: Value)     // `<meta name=... content=... />`
    | Markup(source: string)                 // any other JSX written in the route table

  type Record = map<string, Value>

  /** Property read `o[k]`: a missing property reads as `undefined`. */
  function Get(o: Record, k: string): Value {
    if k in o then o[k] else Undefined
  }

  /** JavaScript truthiness of the values above (objects and arrays are truthy). */
  predicate Truthy(v: Value) {
    match v
    case Undefined => false
    case Null => false
    case Bool(b) => b
    case Str(s) => s != ""
    case _ => true
  }

  /** `React.isValidElement(v)` */
  predicate IsValidElement(v: Value) {
    v.Element?
  }

  /** Object spread `{...a, ...b}`: every property of either, `b`'s winning. */
  function Spread(a: Record, b: Record): Record {
    a + b
  }

  /**
   * The string a value contributes to a `+` concatenation with a string.
   * Elements, arrays, objects and functions are given the empty string.
   */
  function ToText(v: Value): string {
    match v
    case Str(s) => s
    case Undefined => "undefined"
    case Null => "null"
    case Bool(b) => if b then "true" else "false"
    case _ => ""
  }
}

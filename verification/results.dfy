/**
 * Optional values, the conversion's fatal errors, and a failure-compatible
 * Result type so that the pipeline can be written with `:-`.
 */
module Results {

  /** An optional value: an absent XML attribute, a missing archive entry. */
  datatype Option<+T> = None | Some(value: T) {

    /** The value, or `default` when there is none. */
    function GetOr(default: T): T {
      match this
      case Some(v) => v
      case None => default
    }
  }

  /**
   * Every way the conversion run aborts. Each corresponds to an exception
   * the converter does not catch (or to its explicit `sys.exit`).
   */
  datatype ConvertError =
    | MissingConfig                                  // `oex.read("config.xml")` raises KeyError
    | MalformedConfig                                // `etree.fromstring` raises on bad XML
    | MissingText(tag: string)                       // a selected element has no text (`None.encode`)
    | MissingAttribute(element: string, attribute: string)  // `attrib[...]` raises KeyError
    | EmptyScript(kind: string)                      // `childNodes[0]` of an empty inline script
    | ShimUnreadable(path: string)                   // a shim asset file cannot be opened
    | UndecodableScript(name: string)                // `str.encode(data, 'utf-8')` of a non-ASCII script raises UnicodeDecodeError
    | UnencodableScript(kind: string)                // `writestr` of a non-ASCII inline script text raises UnicodeEncodeError
    | UndecodableManifest                            // a non-ASCII name or description joined with non-ASCII unicode raises UnicodeDecodeError
    | UnencodableManifest                            // `writestr` of a non-ASCII unicode manifest raises UnicodeEncodeError

  /** Either a value or the error that aborted the run. */
  datatype Result<+T> = Ok(value: T) | Err(error: ConvertError) {

    predicate IsFailure() {
      Err?
    }

    function PropagateFailure<U>(): Result<U>
      requires Err?
    {
      Err(error)
    }

    function Extract(): T
      requires Ok?
    {
      value
    }
  }
}

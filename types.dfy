/** Values, records and errors shared by the model of the MongoDB discovery backend. */
module Types {

  datatype Option<+T> = None | Some(value: T)

  /** The errors the backend returns. The first three are the package's own error
      values; the others come from the driver. */
  datatype Error =
    | UnknownDBName             // the address names no database
    | FieldNotExists            // a stored record lacks the configured field
    | InvalidFieldValue         // the configured field of a stored record is not a string
    | NotFound                  // Remove matched no record
    | DuplicateKey              // a unique-index violation
    | Driver(message: string)   // any other failure of the datastore client

  datatype Result<+T> = Ok(value: T) | Err(error: Error)

  /** A value stored under a field of a record: a string, BSON null, or any other
      BSON value, kept as its type name and a rendering of it. */
  datatype Value = Str(text: string) | Null | Other(kind: string, repr: string)

  /** A stored document, decoded as a map from field name to value. */
  type Record = map<string, Value>

  /** A discovered endpoint: a wrapper around its address. */
  datatype Node = Node(url: string)
}

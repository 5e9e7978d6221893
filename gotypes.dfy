/** Shared vocabulary of the model: Go's byte strings, an Option type and
    the error values the connector returns. */
module GoTypes {

  /** A Go string is a sequence of bytes; the model keeps each byte as a
      character below 256, so that string literals stay readable. */
  type Byte = c: char | c as int < 256 witness 'a'

  type GoString = seq<Byte>

  datatype Option<T> = None | Some(value: T)

  /** The error values that reach callers. Library errors are named by
      their cause; sentinel errors of the connector by their Go name. */
  datatype Error =
    | ErrValidTarget      // commands.go errValidTarget: "no valid target"
    | ErrNoFoundCmd       // commands.go errNoFoundCmd
    | ErrNoFoundVol       // commands.go errNoFoundVol
    | ErrCorruptInput     // encoding/base64 CorruptInputError
    | ErrUploadFile       // elfinder.go errUploadFile
    | ErrFolderUpload     // elfinder.go errFolderUpload
    | ErrArcMaxSize       // elfinder.go errArcMaxSize
    | ErrNotExist         // os: no such file or directory
    | ErrExist            // os: file exists
    | ErrIsDir            // os: is a directory
    | ErrNotDir           // os: not a directory
    | ErrInvalid          // os: invalid argument (rename into itself)
    | ErrNotEmpty         // os: directory not empty
    | ErrSyntax           // strconv.ErrSyntax
    | ErrRange            // strconv.ErrRange
    | ErrUnknownType      // bind.go "unknown type"
    | ErrNotStruct        // bind.go "binding element must be a struct"
    | ErrDecode           // an error reported by a decoder the model does not see

  /** Go's `(value, error)` result pair: the value is returned even when
      the error is set, as Go code does. */
  datatype Returned<T> = Returned(value: T, err: Option<Error>)

  /** The outcome of an operation the model treats as failing with an error
      and no meaningful value. */
  datatype Result<T> = Ok(value: T) | Fail(error: Error)
}

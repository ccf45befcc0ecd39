/** Shared data of the bog model: bytes, errors, Go's (value, error) and
    panic outcomes, and the loosely-typed metadata values that the JSON
    and YAML decoders produce. */
module Values {

  /** One byte of a Go `[]byte` or `string`. */
  newtype byte = b: int | 0 <= b < 256

  type Bytes = seq<byte>

  datatype Option<+T> = None | Some(value: T)

  /** A Go `error` value. Errors coming from collaborators (file system,
      parsers, decoders, the context) are opaque; `fmt.Errorf("ctx: %w", e)`
      becomes `Wrapped("ctx", e)`. */
  datatype Error =
    | Foreign(code: nat)
    | Wrapped(context: string, cause: Error)

  /** A Go call that returns either a value or an error. */
  datatype Result<+T> = Ok(value: T) | Err(error: Error)

  /** A Go call that either returns normally or panics. */
  datatype Outcome<+T> = Normal(value: T) | Panic(reason: string)

  /** An `interface{}` held in a metadata map: what the JSON and YAML
      decoders produce, plus file times. `Null` is Go's nil interface. */
  datatype Value =
    | Null
    | Str(s: string)
    | Num(n: int)
    | Bool(b: bool)
    | Time(t: int)
    | List(items: seq<Value>)
    | Map(entries: map<string, Value>)

  /** `map[string]interface{}`. A nil Go map is `None` where it can occur. */
  type ValueMap = map<string, Value>

  /** What `os.Stat` reports about a file: its base name and its
      modification time. */
  datatype FileInfo = FileInfo(name: string, modTime: int)

  /** Go's `m[k]` on a map: the zero value (nil) when the key is absent. */
  function Get(m: ValueMap, k: string): (v: Value)
    ensures k !in m ==> v == Null
    ensures k in m ==> v == m[k]
  {
    if k in m then m[k] else Null
  }
}

/** Values shared by the index, its baseline and its file format. */
module Types {
  datatype Option<+T> = None | Some(value: T)

  datatype Result<+T, +E> = Ok(value: T) | Err(error: E) {
    predicate IsFailure() { Err? }

    function PropagateFailure<U>(): Result<U, E>
      requires Err?
    {
      Err(error)
    }

    function Extract(): T
      requires Ok?
    {
      value
    }
  }

  /** A float32 component by its bit pattern; all arithmetic on vectors sits behind the metric. */
  type Bits32 = n: nat | n < 0x1_0000_0000

  type Vec = seq<Bits32>

  /** The distance, with no law assumed. */
  type Metric = (Vec, Vec) -> real

  datatype Json =
    | Null
    | Bool(b: bool)
    | Int(n: int)
    | Float(bits: nat)
    | Str(s: string)
    | Arr(items: seq<Json>)
    | Obj(fields: map<string, Json>)

  type Meta = map<string, Json>

  type Filter = Meta -> bool
}

/**
 * The value model of the mini-redis data engine: what a key of the store can
 * hold, and the typed failures its operations report instead of throwing.
 */
module Values {

  datatype Option<+T> = None | Some(value: T)

  datatype Result<+T> = Ok(value: T) | Err(error: Error)

  /** The exceptions the engine throws, as values. */
  datatype Error =
    | BusinessException(message: string)
    | NonNumericValueException(input: string)  // wraps the NumberFormatException for `input`
    | NotFoundException(message: string)
    | NullPointerException
    | IndexOutOfBoundsException

  const MIN_INT: int := -0x8000_0000
  const MAX_INT: int := 0x7fff_ffff

  /** Java's 32-bit `int` and `Integer`. */
  type Int32 = x: int | -0x8000_0000 <= x <= 0x7fff_ffff

  /** A zset score. Java keeps a `Double`; the model keeps a totally ordered number. */
  type Score = int

  /** An instant on the clock (`LocalDateTime`). */
  type Time = int

  /** One `Map.Entry<String, Double>` of a zset: (member, score). */
  type Entry = (string, Score)

  /** What a key of the store holds; one variant per runtime class the engine checks for. */
  datatype Obj =
    | Str(s: string)                  // java.lang.String
    | Num(n: Int32)                   // java.lang.Integer
    | ZSet(entries: seq<Entry>)       // LinkedHashMap<String, Double>, in iteration order
    | Expirable(ev: ExpirableValue)   // model.dto.ExpirableValue

  /** A stored value with an optional expiry instant; `None` stands for Java's null. */
  datatype ExpirableValue = ExpirableValue(value: Option<Obj>, expireTime: Option<Time>)
}

/** Values shared by the relay store's components: optional JSON fields, the
    two-way reply of every API branch, and the subsequence relation used to
    state that reads only drop records. */
module RelayTypes {

  /** A field of a parsed request body or query string: None stands for a field
      that is absent or null, and also for a present `alias` that is not a
      string (rejected with the same error as a missing one); any other present
      field is modelled as already holding the type the handler coerces it to. */
  datatype Option<T> = None | Some(value: T) {
    /** `x != null ? x : fallback` */
    function GetOr(fallback: T): T {
      match this
      case Some(v) => v
      case None => fallback
    }
  }

  /** What a request handler answers: `200` with a value, or `400 {error: msg}`. */
  datatype Response<T> = Ok(value: T) | ValidationError(msg: string)

  const MessageFieldsRequired: string := "roomId and encrypted required"
  const RoomIdRequired: string := "roomId required"
  const AliasFieldsRequired: string := "roomId and alias required"

  /** JavaScript falsiness of a string field, `!x`: absent, null or "". */
  predicate Blank(field: Option<string>) {
    field.None? || field.value == ""
  }

  /** `a` is obtained from `b` by dropping elements, keeping the order of the rest. */
  predicate IsSubsequence<T(==)>(a: seq<T>, b: seq<T>)
    decreases |b|
  {
    if a == [] then true
    else if b == [] then false
    else (a[0] == b[0] && IsSubsequence(a[1..], b[1..])) || IsSubsequence(a, b[1..])
  }
}

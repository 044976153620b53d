/** The JSON value domain shared by the Transition protocol and the YOps document
    model, and the two platform functions the source calls on numbers. */
module Values {
  import opened Text

  /** A mapping is unordered: the source never lets key order reach a canonical text.
      A finite binary64 number is the real it denotes, so 0 and -0 are one value. */
  datatype Value =
    | Null
    | Bool(b: bool)
    | Num(r: real)
    | Str(s: Text)
    | Arr(items: seq<Value>)
    | Obj(m: map<Text, Value>)

  /** The finite binary64 numbers, `JSON.stringify` on them, and `Number` on a number
      text; `read` answers None where `Number` overflows to an infinity. */
  datatype NumberCodec = NumberCodec(dom: real -> bool, show: real -> Text, read: Text -> Option<real>)

  /** Every number in `v` is a finite binary64. */
  predicate Finite(c: NumberCodec, v: Value) {
    match v
    case Num(r) => c.dom(r)
    case Arr(items) => forall x <- items :: Finite(c, x)
    case Obj(m) => forall k <- m :: Finite(c, m[k])
    case _ => true
  }

  /** No string and no key in `v` has an unpaired surrogate. */
  predicate Paired(v: Value) {
    match v
    case Str(s) => WellFormed(s)
    case Arr(items) => forall x <- items :: Paired(x)
    case Obj(m) => forall k <- m :: WellFormed(k) && Paired(m[k])
    case _ => true
  }

  /** The protocol's I-JSON domain (RFC 7493, section 2). */
  predicate InDomain(c: NumberCodec, v: Value) { Finite(c, v) && Paired(v) }

  /** No key in `v` has a surrogate at all. */
  predicate PlainKeys(v: Value) {
    match v
    case Arr(items) => forall x <- items :: PlainKeys(x)
    case Obj(m) => forall k <- m :: NoSurrogates(k) && PlainKeys(m[k])
    case _ => true
  }
}

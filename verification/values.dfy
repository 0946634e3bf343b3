/**
  A value stored in a candidate record. The record is a Python dictionary whose
  values are strings in practice; any other Python object is represented only by
  its truthiness, which is all the validators and the sanitiser look at.
 */
module Values {

  datatype Value = Text(s: string) | NonText(truthy: bool)

  /** Python's `not v`: the empty string and falsy objects. */
  predicate IsFalsy(v: Value) {
    match v
    case Text(s) => s == ""
    case NonText(truthy) => !truthy
  }

}

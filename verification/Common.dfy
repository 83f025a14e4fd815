/** Types that several of the models use. */
module Common {

  datatype Option<T> = None | Some(value: T)

  type Byte = b: nat | b < 256 witness 0

  function Min(a: nat, b: nat): nat { if a < b then a else b }

  function Max(a: nat, b: nat): nat { if a < b then b else a }
}

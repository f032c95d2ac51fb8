/** What several parts of the model share. */
module Common {

  datatype Option<+T> = None | Some(value: T)

  /** A 32-bit unsigned value is below this. */
  const WORD: nat := 0x1_0000_0000

  lemma Regroup<T>(a: seq<T>, b: seq<T>, c: seq<T>)
    ensures a + b + c == a + (b + c)
  {}
}

/** What several modules share. */
module Common {

  const WORD: nat := 0x1_0000_0000  // uint32_t wraps here

  datatype Option<T> = None | Some(value: T)

  ghost predicate Distinct<T>(s: seq<T>) {
    forall i, j | 0 <= i < j < |s| :: s[i] != s[j]
  }
}

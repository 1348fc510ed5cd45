/** What several parts of the model share. */
module Common {

  const GT_OK: int := 0
  const GT_ERROR: int := -1

  datatype Option<+T> = None | Some(value: T)

  ghost predicate Distinct<T>(s: seq<T>) {
    forall i, j | 0 <= i < j < |s| :: s[i] != s[j]
  }
}

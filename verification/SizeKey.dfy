/** The sizes that requests and ads are looked up by (`SIZETUPLE`). */
module SizeKey {
  type Key = (nat, nat)

  const ZERO_SIZE: Key := (0, 0)

  /** `operator<` of tuples. */
  predicate Before(a: Key, b: Key) {
    a.0 < b.0 || (a.0 == b.0 && a.1 < b.1)
  }
}

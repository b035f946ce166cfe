/** Optional values: the model's stand-in for NULL pointers and failed lookups. */
module Wrappers {
  datatype Option<+T> = None | Some(value: T)
}

/**
  The semantic-version decision helper `compare_version` of task_ota.c.

  The semver parser and comparator themselves (semver.c) are not part of this
  model: they are supplied as an oracle, a parse-success predicate and an
  ordering over strings whose sign is all the caller looks at.
*/
module Version {
  import opened Wrappers

  /** The semver library as seen by its caller: which strings parse, and
      `order(a, b)` for two parsable strings (negative: a is older than b,
      zero: same, positive: a is newer). */
  datatype Semver = Semver(parses: string -> bool, order: (string, string) -> int)

  /** `compare_version(compare, current, &result)`: ESP_FAIL (None) when either
      string fails to parse, otherwise ESP_OK with `result` the ordering of
      `compare` against `current`. */
  function CompareVersion(compare: string, current: string, sv: Semver): (r: Option<int>)
    ensures r.None? <==> !sv.parses(current) || !sv.parses(compare)
    ensures r.Some? ==> r.value == sv.order(compare, current)
  {
    // `current` is parsed first; a failure of either parse is the same ESP_FAIL
    if !sv.parses(current) || !sv.parses(compare) then None
    else Some(sv.order(compare, current))
  }

  /** What the semver comparator promises: identical versions compare the same,
      and swapping the arguments flips the sign of the answer. */
  ghost predicate Coherent(sv: Semver) {
    && (forall a :: sv.parses(a) ==> sv.order(a, a) == 0)
    && (forall a, b :: sv.parses(a) && sv.parses(b) ==>
          (sv.order(a, b) < 0 <==> sv.order(b, a) > 0) && (sv.order(a, b) == 0 <==> sv.order(b, a) == 0))
  }

  /** Comparing a parsable version with itself succeeds and reports "same".
      This records what the comparator oracle is assumed to promise
      (`Coherent`), as seen through `CompareVersion`. */
  lemma CompareWithItselfIsSame(v: string, sv: Semver)
    requires Coherent(sv) && sv.parses(v)
    ensures CompareVersion(v, v, sv) == Some(0)
  {
  }

  /** The helper is symmetric in when it fails and antisymmetric in what it
      reports: comparing the other way round fails exactly as often and gives
      the opposite verdict. Like the lemma above, this records the assumed
      comparator contract (`Coherent`) as seen through `CompareVersion`. */
  lemma CompareVersionSwapped(a: string, b: string, sv: Semver)
    requires Coherent(sv)
    ensures CompareVersion(a, b, sv).None? <==> CompareVersion(b, a, sv).None?
    ensures CompareVersion(a, b, sv).Some? ==>
      && (CompareVersion(a, b, sv).value == 0 <==> CompareVersion(b, a, sv).value == 0)
      && (CompareVersion(a, b, sv).value < 0 <==> CompareVersion(b, a, sv).value > 0)
  {
  }
}

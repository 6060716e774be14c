/** Small shared datatypes and arithmetic facts. */
module Common {

  /** A value that may be missing: a column absent from a table row, a mean of an empty column. */
  datatype Option<+T> = None | Some(value: T) {

    /** The value, or `default` when it is missing (the `dict.get(key, default)` idiom). */
    function GetOr(default: T): T {
      match this
      case Some(v) => v
      case None => default
    }
  }

  /** A share of a positive total lies in [0, 1]. */
  lemma RatioAtMostOne(n: real, t: real)
    requires 0.0 <= n <= t && 0.0 < t
    ensures 0.0 <= n / t <= 1.0
  {
    var r := n / t;
    assert r * t == n;
    assert (1.0 - r) * t == t - n;
  }
}

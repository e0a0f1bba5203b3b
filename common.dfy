/** Small shared vocabulary: an optional value and the sort key used for ORDER BY. */
module Common {

  /** A value that may be absent (`undefined` / `null` in the source). */
  datatype Option<+T> = None | Some(value: T)

  /** A two-column ORDER BY key, compared lexicographically in ascending order.
      A descending column is encoded by negating it. */
  datatype Key = Key(major: int, minor: int)

  /** The ascending lexicographic order on keys. */
  predicate KeyLe(a: Key, b: Key)
  {
    a.major < b.major || (a.major == b.major && a.minor <= b.minor)
  }

  /** `const { x = d } = params`: the default replaces only an absent value. */
  function Default<T>(o: Option<T>, d: T): T
  {
    if o.Some? then o.value else d
  }

  function Min(a: int, b: int): int
  {
    if a <= b then a else b
  }

  function Max(a: int, b: int): int
  {
    if a <= b then b else a
  }

  /** `offset = (page - 1) * pageSize`, as the services compute it; a page
      below 1 gives a negative offset, which the database rejects. */
  function PageOffset(page: int, pageSize: int): int
  {
    (page - 1) * pageSize
  }

  // ---------------------------------------------------------------------------
  // Text matching

  /** ASCII lower-casing, the case folding `ilike` is modelled with. */
  function Lower(s: string): (r: string)
    ensures |r| == |s|
  {
    seq(|s|, i requires 0 <= i < |s| => if 'A' <= s[i] <= 'Z' then (s[i] as int + 32) as char else s[i])
  }

  /** `t` occurs in `s` as a contiguous piece. */
  predicate IsSubstring(t: string, s: string)
  {
    exists i :: 0 <= i <= |s| && t <= s[i..]
  }

  /** `column ilike '%search%'` with no wildcard characters inside `search`. */
  predicate ILike(column: string, search: string)
  {
    IsSubstring(Lower(search), Lower(column))
  }

  /** A JavaScript string is truthy unless it is absent or empty. */
  predicate Truthy(s: Option<string>)
  {
    s.Some? && s.value != ""
  }
}

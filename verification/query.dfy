/** `get_filelist` (src/main.rs:268-303), its limit policy `FileListLimit`
    (src/main.rs:305-310) and the mapping from the `ls` limit flags to a
    policy (src/main.rs:149-154). */
module Query {
  import opened Wrappers
  import opened Catalog

  /** How many matching files are acceptable. Rust's variants are `None`,
      `Some(count)` and `Force(count)`; the first two are renamed so as not
      to clash with `Option`. */
  datatype FileListLimit =
    | Unbounded            // `FileListLimit::None`: keep every match
    | Capped(count: nat)   // `FileListLimit::Some(count)`: keep the first `count`, silently
    | Force(count: nat)    // `FileListLimit::Force(count)`: keep all, fail on more than `count`

  /** The failures of the core. `TooMany` carries the limit and every
      matching file so that the user can disambiguate. */
  datatype Error =
    | TooMany(limit: nat, matches: seq<ObjectMetadata>)
    | NotFound(name: string)

  function Min(a: nat, b: nat): nat {
    if a <= b then a else b
  }

  /** `.enumerate().map_while(|(i, file)| if i >= count { None } else { Some(file) })`
      applied to `s`, whose first element has index `start`. */
  function TakeWhileIndexBelow<T>(s: seq<T>, start: nat, count: nat): seq<T>
    decreases |s|
  {
    if |s| == 0 || start >= count then [] else [s[0]] + TakeWhileIndexBelow(s[1..], start + 1, count)
  }

  /** The iterator chain keeps exactly the first `count - start` elements. */
  lemma {:induction false} TakeWhileIndexBelowIsPrefix<T>(s: seq<T>, start: nat, count: nat)
    ensures TakeWhileIndexBelow(s, start, count) == s[..if start >= count then 0 else Min(|s|, count - start)]
    decreases |s|
  {
    if |s| > 0 && start < count {
      TakeWhileIndexBelowIsPrefix(s[1..], start + 1, count);
      var m := Min(|s|, count - start);
      assert s[..m] == [s[0]] + s[1..][..m - 1];
    }
  }

  /** The catalog query: filter by name, then apply the limit policy. */
  function GetFileList(catalog: seq<ObjectMetadata>, filter: Option<string>, limit: FileListLimit)
    : (r: Result<seq<ObjectMetadata>, Error>)
    ensures limit.Unbounded? ==> r == Success(Filter(catalog, filter))
    ensures limit.Capped? ==> r.Success?
    ensures limit.Capped? ==>
      var matched := Filter(catalog, filter);
      r.value == matched[..Min(limit.count, |matched|)] && |r.value| <= limit.count
    ensures limit.Force? ==> (r.Failure? <==> |Filter(catalog, filter)| > limit.count)
    ensures limit.Force? && r.Success? ==> r.value == Filter(catalog, filter)
    ensures r.Failure? ==> r.error == TooMany(limit.count, Filter(catalog, filter))
  {
    var matched := Filter(catalog, filter);
    match limit
    case Unbounded => Success(matched)
    case Capped(count) =>
      TakeWhileIndexBelowIsPrefix(matched, 0, count);
      Success(TakeWhileIndexBelow(matched, 0, count))
    case Force(count) =>
      if |matched| > count then Failure(TooMany(count, matched)) else Success(matched)
  }

  /** A successful `Force(n)` query returns everything the unbounded query
      does, and so does the `Capped(n)` query: forcing never truncates. */
  lemma ForceNeverTruncates(catalog: seq<ObjectMetadata>, filter: Option<string>, n: nat)
    requires GetFileList(catalog, filter, Force(n)).Success?
    ensures GetFileList(catalog, filter, Force(n)) == GetFileList(catalog, filter, Unbounded)
    ensures GetFileList(catalog, filter, Force(n)) == GetFileList(catalog, filter, Capped(n))
  {
    var matched := Filter(catalog, filter);
    assert matched[..Min(n, |matched|)] == matched;
  }

  /** The capped result is the first entries of the unbounded result. */
  lemma CappedIsPrefixOfUnbounded(catalog: seq<ObjectMetadata>, filter: Option<string>, n: nat)
    ensures GetFileList(catalog, filter, Capped(n)).value <= GetFileList(catalog, filter, Unbounded).value
  {
  }

  /** The `ls` flags as a policy: `--limit-one` wins over everything, then
      `--limit N` with or without `--force-limit`; `--force-limit` without a
      limit means no limit at all. */
  function LimitFromFlags(limitOne: bool, limit: Option<nat>, forceLimit: bool): (r: FileListLimit)
    ensures r.Force? <==> limitOne || (limit.Some? && forceLimit)
    ensures r.Capped? <==> !limitOne && limit.Some? && !forceLimit
    ensures r.Unbounded? <==> !limitOne && limit.None?
    ensures !r.Unbounded? ==> r.count == if limitOne then 1 else limit.value
  {
    if limitOne then Force(1)
    else if limit.Some? && forceLimit then Force(limit.value)
    else if limit.Some? then Capped(limit.value)
    else Unbounded
  }

  /** The flags a user would pass to ask for a policy. */
  function FlagsFor(limit: FileListLimit): (bool, Option<nat>, bool) {
    match limit
    case Unbounded => (false, None, false)
    case Capped(n) => (false, Some(n), false)
    case Force(n) => (false, Some(n), true)
  }

  /** Every policy is reachable from the flags, and mapping back gives it. */
  lemma LimitFlagsRoundTrip(limit: FileListLimit)
    ensures var (one, n, force) := FlagsFor(limit); LimitFromFlags(one, n, force) == limit
  {
  }

  /** `--limit-one` is `--limit 1 --force-limit`, whatever else is given. */
  lemma LimitOneIsForceOne(limit: Option<nat>, forceLimit: bool)
    ensures LimitFromFlags(true, limit, forceLimit) == LimitFromFlags(false, Some(1), true)
  {
  }
}

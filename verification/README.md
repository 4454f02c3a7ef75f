# geckopanda catalog query and name resolution, in Dafny

geckopanda is a command-line tool that keeps files in Google Drive. It has
four subcommands: `ls`, `up`, `dl` and `rm`. This project models the logic
of `src/main.rs` that sits on top of the storage client:

- **Catalog query** (`get_filelist`). It keeps the catalog entries whose
  name contains an optional substring. Then it applies a `FileListLimit`:
  - `None` keeps everything.
  - `Some(n)` silently keeps the first `n`.
  - `Force(n)` fails when more than `n` entries match, and otherwise keeps
    them all.
- **Limit-flag mapping.** `--limit-one`, `--limit N` and `--force-limit`
  are turned into a `FileListLimit`.
- **Name resolution.** `dl` and `rm` use it. With `--id` the target is
  taken as is. Otherwise the name is queried with `Force(1)`. No match is a
  "no such file" error, and the single match's id is the answer.
- **`ls` display.** A stable sort by name, date or size is followed by an
  optional reverse. Each file becomes one row. The row holds the chosen
  columns in the fixed order date, size, id, name, joined by two spaces.
  The size is right-aligned in a 10-character field.

The storage client is replaced by a parameter. The catalog is a plain
`seq<ObjectMetadata>` holding `id`, `name`, `size` and `lastModified`.

Modules, one file each:

- `Wrappers` (`wrappers.dfy`): `Option` and `Result`.
- `Text` (`text.dfy`): `str::contains`, `join`, decimal formatting and
  `{:>width}` padding.
- `Orderings` (`orderings.dfy`): `Ordering` and the `cmp` of integers and
  strings.
- `Catalog` (`catalog.dfy`): `ObjectMetadata` and the name filter.
- `Query` (`query.dfy`): `FileListLimit`, `get_filelist` and the flag
  mapping.
- `Resolve` (`resolve.dfy`): name resolution for `dl` and `rm`.
- `Sorting` (`sorting.dfy`): the comparator, the stable sort and the
  reverse.
- `Listing` (`listing.dfy`): the columns, the rows and the whole `ls`
  pipeline.

Notes on fidelity:

- **The date comparator is kept as written.** It compares
  `b.last_modified` with itself, so it always answers `Equal`. The model
  keeps it that way (`Sorting.Compare`). `Sorting.DateSortKeepsOrder` proves
  the consequence: sorting by date, which is the default, leaves the list in
  catalog order.
- **`sort_by` is modelled as an insertion sort.** The model proves that the
  result is ordered, is a permutation of the input and keeps each class of
  equal entries in its original order. `Sorting.StableSortUnique` proves
  that only one sequence has all three properties. Rust's stable `sort_by`
  must therefore produce the same sequence for these comparators.
- **`Some(n)` truncates before the display sort.**
  `Listing.CappedListingSortsFirstMatches` proves it for every input: the
  listing is the first `n` catalog matches, put in display order.
  `Listing.LimitAppliesBeforeSort` is a concrete instance. It uses a catalog
  listing "b" before "a", with limit 1 and sorting by name, and `ls` shows
  "b".
- **`FileListLimit` variants are renamed.** Rust's `None`, `Some(n)` and
  `Force(n)` are `Unbounded`, `Capped(n)` and `Force(n)` here, so that they
  do not clash with `Option`.
- **The catalog entry type is assumed.** `ObjectMetadata` is defined in
  the geckopanda library, which is not part of this model. `size` is taken
  to be an unsigned integer. `last_modified` is a string, because the
  listing pushes it into a row of strings.

## Model

| member | source | states |
|---|---|---|
| Text.Contains | src/main.rs:277-282 | the name filter's `contains` holds exactly when the pattern occurs at some position of the name; the empty pattern occurs in every name |
| Catalog.FilterKeepsMatchesInOrder | src/main.rs:273-282 | the filtered catalog is the subsequence at strictly increasing catalog positions, and those positions are exactly the ones whose name matches |
| Catalog.NoFilterKeepsAll | src/main.rs:277-282 | with no filter every catalog entry is kept, in order |
| Catalog.FilterAppend | src/main.rs:276-282 | filtering a concatenation of catalogs gives the concatenation of the filtered parts, so the filter works entry by entry and keeps order |
| Query.TakeWhileIndexBelowIsPrefix | src/main.rs:285-293 | the `enumerate().map_while(i < count)` chain keeps exactly the first `min(count, len)` elements |
| Query.GetFileList | src/main.rs:268-303 | `None` returns the whole filtered list; `Some(n)` returns its first `min(n, len)` entries, never more than n, and never fails; `Force(n)` fails exactly when more than n entries match, with an error holding n and every match, and otherwise returns the whole filtered list |
| Query.ForceNeverTruncates | src/main.rs:294-300 | a successful `Force(n)` query returns the same list as the unlimited query and as the `Some(n)` query |
| Query.CappedIsPrefixOfUnbounded | src/main.rs:284-293 | the `Some(n)` result is a prefix of the unlimited result |
| Query.LimitFromFlags | src/main.rs:149-154 | `--limit-one` gives `Force(1)` whatever else is set; `--limit n --force-limit` gives `Force(n)`; `--limit n` alone gives `Some(n)`; with no limit the result is `None`, even if `--force-limit` is set |
| Query.LimitFlagsRoundTrip | src/main.rs:149-154 | every limit policy can be reached from some flags, and mapping those flags gives back the policy |
| Query.LimitOneIsForceOne | src/main.rs:56-58 | `--limit-one` means the same as `--limit 1 --force-limit` |
| Resolve.ResolveTarget | src/main.rs:226-236 | with the id flag the target is the result and the catalog is not used; every failure is either not-found for the target or the too-many error |
| Resolve.ResolveByName | src/main.rs:229-235 | resolution by name succeeds exactly when one catalog entry's name contains the target, and then returns that entry's id; no match gives not-found; two or more matches give the `Force(1)` error listing all matches |
| Resolve.DownloadFileId | src/main.rs:225-236 | the id `dl` fetches is the target under `--id`; otherwise it is the id of the one entry whose name contains the target, and the lookup fails unless exactly one entry matches |
| Resolve.RemoveFileId | src/main.rs:247-258 | the id `rm` deletes is the target under `--id`, and in every case it is what `dl` would fetch for the same target and flag, so the two commands share one resolution and one failure shape |
| Orderings.CompareStringsLessIff | src/main.rs:157 | the name comparison says `Less` exactly when the first name comes first lexicographically: it is a proper prefix of the second, or it has the smaller character at the first position where they differ |
| Orderings.CompareStringsEqualIff | src/main.rs:157 | the name comparison says `Equal` exactly when the names are equal |
| Orderings.CompareStringsTransitive | src/main.rs:157 | the order given by the name comparison is transitive |
| Sorting.DateCompareAlwaysEqual | src/main.rs:158 | the date arm of the comparator answers `Equal` for every pair of files |
| Sorting.SortBySortedPermutation | src/main.rs:156-160 | the sorted list is ordered by the comparator and is a permutation of the input |
| Sorting.SortByStable | src/main.rs:156-160 | the sort is stable: the entries the comparator treats as equal keep their original relative order |
| Sorting.StableSortUnique | src/main.rs:156-160 | two ordered lists whose classes of equal entries match, each in the same order, are identical, so a stable sort has only one possible result |
| Sorting.DateSortKeepsOrder | src/main.rs:156-160 | sorting by date returns the list unchanged |
| Sorting.Reverse | src/main.rs:161-163 | the reversed list has the same length, and entry i is entry `len-1-i` of the input |
| Sorting.EquivalentToReverse | src/main.rs:161-163 | reversing a list reverses, in place, the order of every class of entries the comparator treats as equal |
| Sorting.DisplayOrder | src/main.rs:156-163 | the display order is a permutation of the queried files; without `--reverse` it is non-decreasing and every class of equal entries keeps its query order; with `--reverse` it is non-increasing and every such class comes out in reverse query order; for date sorting it is the query order, reversed if asked |
| Sorting.DisplayOrderReverse | src/main.rs:161-163 | for every sort key, the `--reverse` listing is exactly the unreversed listing read backwards |
| Text.JoinLayout | src/main.rs:187 | in a joined row each part's characters sit at its offset, which is the sum of the earlier parts' lengths plus one separator each; a separator follows every part but the last, and the row ends with the last part |
| Text.PadLeft | src/main.rs:179 | `{:>width}` gives `max(width, len)` characters: leading spaces followed by the text, never truncated |
| Text.DecimalRoundTrip | src/main.rs:179 | reading back the decimal text of a size gives the size |
| Listing.SizeFieldRoundTrip | src/main.rs:179 | trimming the padding off the size column gives the size's decimal text, whose value is the size |
| Listing.SelectedColumns | src/main.rs:175-186 | the shown columns follow the fixed order date, size, id, name |
| Listing.SelectedColumnsAreShown | src/main.rs:171-186 | a column is shown exactly when it or `All` was asked for |
| Listing.RowFieldsFollowColumnOrder | src/main.rs:173-187 | a row has one field per shown column, in the fixed order, each the file's value for that column |
| Listing.AllShowsEveryColumn | src/main.rs:171 | asking for `All` shows date, size, id and name |
| Listing.DefaultShowsDateSizeName | src/main.rs:164-170 | without `--display` a row shows date, size and name |
| Listing.RequestOrderIrrelevant | src/main.rs:175-187 | the row depends only on which columns were asked for, not on their order or repetition |
| Listing.ListFiles | src/main.rs:149-163 | `ls` fails exactly when its query fails, with the same error; otherwise it lists a permutation of the query result that is non-decreasing under the chosen comparator without `--reverse` and non-increasing with it; equal entries keep their query order, or the reverse of it under `--reverse`; with date sorting it is the query order, reversed if asked |
| Listing.ListRows | src/main.rs:172-188 | one row per listed file, in listing order, each formatted with the chosen columns |
| Listing.ListOutput | src/main.rs:148-189 | `ls` fails only when a forced limit is exceeded by the filtered count, and then reports the limit and every match |
| Listing.CappedListingSortsFirstMatches | src/main.rs:149-163 | under `--limit n` without `--force-limit`, `ls` always succeeds and lists exactly the first `min(n, matches)` catalog matches, rearranged into display order: the limit cuts catalog order before the sort |
| Listing.LimitAppliesBeforeSort | src/main.rs:155-160 | example: with a catalog listing "b" before "a", `--limit 1 --sorting name` shows "b", not the first name in sorted order |

## Left out

- The Google Drive storage client is not modelled. This covers
  construction, `list_blocking`, `create_blocking`, `update_blocking`,
  `get_blocking` and `delete_blocking` (src/main.rs:142-146, 211-216, 237,
  259-261). It is an external network client with authentication, so the
  catalog is an input sequence. A failed listing, the storage-failure
  error, is therefore not represented.
- clap argument parsing (src/main.rs:15-136) is not modelled. The parsed
  flag values are inputs. The `--sorting` default of date is a parse-time
  default, so `ListArgs` always carries a sort key.
- File and standard I/O is not modelled. This covers the cache directory,
  reading the upload source or stdin, deleting the local file, writing the
  download and the final `println!` (src/main.rs:140-141, 192-206, 218-222,
  238-245, 189). `Listing.ListOutput` is the text before `println!` adds
  its newline.
- `up` (src/main.rs:191-224) is not modelled. Its choices are all about
  storage and local files, and each is left out with them:
  - `--name` overrides the local file name, or "STDIN" when reading stdin
    (src/main.rs:192-207).
  - With `--id` it writes to that remote file; otherwise it first creates
    a new one with `create_blocking`. Either way the data goes up with
    `update_blocking` (src/main.rs:207-216).
  - With `--delete` and a local file given, it deletes the local file after
    the upload (src/main.rs:218-222).
- `include_str!` of the client secret and the token-cache path
  (src/main.rs:9-10) are build and environment details.
- Error texts are not modelled. This covers the `anyhow` messages, the
  `{:#?}` dump of the matches and the context strings. Errors are the
  `Query.Error` datatype: `TooMany(limit, matches)` and `NotFound(name)`.
- `usize` limits are `nat`. The code compares counts and does no
  arithmetic on them, so no wrap-around can occur.
- Text.Contains: Rust matches UTF-8 bytes and the model matches
  characters. For valid UTF-8 strings the two agree.

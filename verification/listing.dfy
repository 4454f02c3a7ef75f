/** The `ls` command (src/main.rs:148-189): query with the policy the flags
    select, order for display, and lay every file out as one row of the
    chosen columns. */
module Listing {
  import opened Wrappers
  import opened Text
  import opened Catalog
  import opened Query
  import Sorting

  /** The `--display` choices. */
  datatype ListColumnOptions = All | Id | Name | Size | Date

  /** The columns shown when `--display` is not given. */
  const DefaultColumns: seq<ListColumnOptions> := [Date, Size, Name]

  /** The order columns always appear in, whatever order they were asked in. */
  const ColumnOrder: seq<ListColumnOptions> := [Date, Size, Id, Name]

  /** Width of the right-aligned size column. */
  const SizeWidth: nat := 10

  /** `list.display.unwrap_or_else(...)`. */
  function DisplayColumns(display: Option<seq<ListColumnOptions>>): seq<ListColumnOptions> {
    match display
    case Some(columns) => columns
    case None => DefaultColumns
  }

  /** Column `c` appears in a row: `All` was asked for, or `c` itself. */
  predicate Shown(columns: seq<ListColumnOptions>, c: ListColumnOptions) {
    All in columns || c in columns
  }

  /** `format!("{:>10}", file.size)`. */
  function SizeField(size: nat): (r: string)
    ensures |r| == if |Decimal(size)| < SizeWidth then SizeWidth else |Decimal(size)|
  {
    PadLeft(Decimal(size), SizeWidth)
  }

  /** The size column reads back as the file's size once the padding is
      trimmed. */
  lemma SizeFieldRoundTrip(size: nat)
    ensures TrimStartSpaces(SizeField(size)) == Decimal(size)
    ensures DecimalValue(TrimStartSpaces(SizeField(size))) == size
  {
    TrimUndoesPad(Decimal(size), SizeWidth);
    DecimalRoundTrip(size);
  }

  /** The fields of one row, built as the loop body builds them: date, size,
      id and name, each pushed if it is shown. */
  function RowFields(file: ObjectMetadata, columns: seq<ListColumnOptions>): seq<string> {
    (if Shown(columns, Date) then [file.lastModified] else [])
    + (if Shown(columns, Size) then [SizeField(file.size)] else [])
    + (if Shown(columns, Id) then [file.id] else [])
    + (if Shown(columns, Name) then [file.name] else [])
  }

  /** One row: its fields joined by two spaces. */
  function FormatRow(file: ObjectMetadata, columns: seq<ListColumnOptions>): string {
    Join(RowFields(file, columns), "  ")
  }

  /** The text of one column of a file. */
  function Field(file: ObjectMetadata, c: ListColumnOptions): string
    requires c != All
  {
    match c
    case Date => file.lastModified
    case Size => SizeField(file.size)
    case Id => file.id
    case Name => file.name
  }

  /** Position of a column in the fixed column order. */
  function Rank(c: ListColumnOptions): nat
    requires c != All
  {
    match c
    case Date => 0
    case Size => 1
    case Id => 2
    case Name => 3
  }

  /** The columns a row shows, in the order it shows them. */
  function SelectedColumns(columns: seq<ListColumnOptions>): (r: seq<ListColumnOptions>)
    ensures forall i, j :: 0 <= i < j < |r| ==> r[i] != All && r[j] != All && Rank(r[i]) < Rank(r[j])
  {
    (if Shown(columns, Date) then [Date] else [])
    + (if Shown(columns, Size) then [Size] else [])
    + (if Shown(columns, Id) then [Id] else [])
    + (if Shown(columns, Name) then [Name] else [])
  }

  /** A row shows every column that was asked for, directly or through
      `All`, and no other. */
  lemma SelectedColumnsAreShown(columns: seq<ListColumnOptions>)
    ensures forall c :: c in SelectedColumns(columns) <==> c != All && Shown(columns, c)
  {
  }

  /** A row lists exactly the selected columns' values, in the fixed order. */
  lemma RowFieldsFollowColumnOrder(file: ObjectMetadata, columns: seq<ListColumnOptions>)
    ensures |RowFields(file, columns)| == |SelectedColumns(columns)|
    ensures forall i :: 0 <= i < |SelectedColumns(columns)| ==>
      SelectedColumns(columns)[i] != All && RowFields(file, columns)[i] == Field(file, SelectedColumns(columns)[i])
  {
  }

  /** `All` shows every column. */
  lemma AllShowsEveryColumn(columns: seq<ListColumnOptions>)
    requires All in columns
    ensures SelectedColumns(columns) == ColumnOrder
  {
  }

  /** Without `--display`, rows show date, size and name. */
  lemma DefaultShowsDateSizeName()
    ensures SelectedColumns(DisplayColumns(None)) == [Date, Size, Name]
  {
  }

  /** Only which columns were asked for matters, not their order or
      repetition. */
  lemma RequestOrderIrrelevant(file: ObjectMetadata, c1: seq<ListColumnOptions>, c2: seq<ListColumnOptions>)
    requires forall c :: c in c1 <==> c in c2
    ensures FormatRow(file, c1) == FormatRow(file, c2)
  {
  }

  /** The parsed `ls` arguments. `sorting` defaults to date on the command
      line; here it is always given. */
  datatype ListArgs = ListArgs(
    display: Option<seq<ListColumnOptions>>,
    sorting: Sorting.SortOptions,
    reverse: bool,
    filter: Option<string>,
    limitOne: bool,
    limit: Option<nat>,
    forceLimit: bool)

  function ArgsLimit(args: ListArgs): FileListLimit {
    LimitFromFlags(args.limitOne, args.limit, args.forceLimit)
  }

  /** The files `ls` lists, in the order it lists them. The limit applies to
      the catalog order, before the display sort. */
  function ListFiles(catalog: seq<ObjectMetadata>, args: ListArgs): (r: Result<seq<ObjectMetadata>, Error>)
    ensures var q := GetFileList(catalog, args.filter, ArgsLimit(args));
      && (r.Success? <==> q.Success?)
      && (r.Failure? ==> r.error == q.error)
      && (r.Success? ==> multiset(r.value) == multiset(q.value))
      && (r.Success? && !args.reverse ==> Sorting.SortedBy(args.sorting, r.value))
      && (r.Success? && args.reverse ==>
            forall i, j :: 0 <= i < j < |r.value| ==> Sorting.Le(args.sorting, r.value[j], r.value[i]))
      && (r.Success? && !args.reverse ==>
            forall k :: Sorting.EquivalentTo(args.sorting, r.value, k) == Sorting.EquivalentTo(args.sorting, q.value, k))
      && (r.Success? && args.reverse ==>
            forall k :: Sorting.EquivalentTo(args.sorting, r.value, k) == Sorting.Reverse(Sorting.EquivalentTo(args.sorting, q.value, k)))
      && (r.Success? && args.sorting == Sorting.ByDate ==>
            r.value == if args.reverse then Sorting.Reverse(q.value) else q.value)
  {
    match GetFileList(catalog, args.filter, ArgsLimit(args))
    case Failure(e) => Failure(e)
    case Success(files) => Success(Sorting.DisplayOrder(args.sorting, args.reverse, files))
  }

  /** One formatted row per listed file, in listing order. */
  function ListRows(catalog: seq<ObjectMetadata>, args: ListArgs): (r: Result<seq<string>, Error>)
    ensures r.Success? <==> ListFiles(catalog, args).Success?
    ensures r.Success? ==>
      var files := ListFiles(catalog, args).value;
      |r.value| == |files| &&
      forall i :: 0 <= i < |files| ==> r.value[i] == FormatRow(files[i], DisplayColumns(args.display))
  {
    match ListFiles(catalog, args)
    case Failure(e) => Failure(e)
    case Success(files) =>
      var columns := DisplayColumns(args.display);
      Success(seq(|files|, i requires 0 <= i < |files| => FormatRow(files[i], columns)))
  }

  /** The text `ls` prints: the rows joined by newlines. Listing fails only
      when a forced limit is exceeded, and then reports every match. */
  function ListOutput(catalog: seq<ObjectMetadata>, args: ListArgs): (r: Result<string, Error>)
    ensures r.Failure? <==> ArgsLimit(args).Force? && |Filter(catalog, args.filter)| > ArgsLimit(args).count
    ensures r.Failure? ==> r.error == TooMany(ArgsLimit(args).count, Filter(catalog, args.filter))
  {
    match ListRows(catalog, args)
    case Failure(e) => Failure(e)
    case Success(rows) => Success(Join(rows, "\n"))
  }

  /** Under `--limit n` without `--force-limit`, `ls` lists the first `n`
      catalog matches, put in display order: the limit cuts the catalog
      order, and the sort only rearranges what is left. */
  lemma CappedListingSortsFirstMatches(catalog: seq<ObjectMetadata>, args: ListArgs, n: nat)
    requires ArgsLimit(args) == Capped(n)
    ensures var matched := Filter(catalog, args.filter);
      var first := matched[..Min(n, |matched|)];
      && ListFiles(catalog, args).Success?
      && multiset(ListFiles(catalog, args).value) == multiset(first)
      && ListFiles(catalog, args).value == Sorting.DisplayOrder(args.sorting, args.reverse, first)
  {
  }

  /** `--limit 1 --sorting name` on a catalog listing "b" before "a" shows
      "b": the first catalog match is kept, then sorted, not the first name
      in sorted order. */
  lemma LimitAppliesBeforeSort()
    ensures
      var b := ObjectMetadata("1", "b", 5, "2024-01-01");
      var a := ObjectMetadata("2", "a", 7, "2024-01-02");
      var args := ListArgs(None, Sorting.ByName, false, None, false, Some(1), false);
      ListFiles([b, a], args) == Success([b])
  {
  }
}

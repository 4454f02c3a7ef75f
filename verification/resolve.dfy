/** Name resolution, shared by `dl` (src/main.rs:226-236) and `rm`
    (src/main.rs:248-258): a target is either taken as an id as it stands
    or looked up with a `Force(1)` query on its name. */
module Resolve {
  import opened Wrappers
  import opened Text
  import opened Catalog
  import opened Query

  /** Catalog position `i` holds the one file whose name contains `target`. */
  ghost predicate UniqueMatch(catalog: seq<ObjectMetadata>, target: string, i: int) {
    && 0 <= i < |catalog|
    && Contains(catalog[i].name, target)
    && forall j :: 0 <= j < |catalog| && Contains(catalog[j].name, target) ==> j == i
  }

  /** No catalog file's name contains `target`. */
  ghost predicate NoMatch(catalog: seq<ObjectMetadata>, target: string) {
    forall i :: 0 <= i < |catalog| ==> !Contains(catalog[i].name, target)
  }

  /** Two different catalog files' names contain `target`. */
  ghost predicate AmbiguousMatch(catalog: seq<ObjectMetadata>, target: string) {
    exists i, j :: 0 <= i < j < |catalog| && Contains(catalog[i].name, target) && Contains(catalog[j].name, target)
  }

  /** The file id a target denotes. With the id flag the target is the id and
      the catalog is not consulted; otherwise the name is queried with
      `Force(1)` and the single match's id is returned. */
  function ResolveTarget(catalog: seq<ObjectMetadata>, target: string, isId: bool): (r: Result<string, Error>)
    ensures isId ==> r == Success(target)
    ensures r.Failure? ==> r.error == NotFound(target) || r.error.TooMany?
  {
    if isId then Success(target)
    else
      match GetFileList(catalog, Some(target), Force(1))
      case Failure(e) => Failure(e)
      case Success(files) =>
        if |files| == 0 then Failure(NotFound(target)) else Success(files[0].id)
  }

  /** Resolution by name succeeds exactly when one catalog file's name
      contains the target, and then yields that file's id; no match is
      `NotFound`, two or more is the `Force(1)` error listing every match. */
  lemma {:induction false} ResolveByName(catalog: seq<ObjectMetadata>, target: string)
    ensures ResolveTarget(catalog, target, false).Success? <==> exists i :: UniqueMatch(catalog, target, i)
    ensures forall i :: UniqueMatch(catalog, target, i) ==>
      ResolveTarget(catalog, target, false) == Success(catalog[i].id)
    ensures NoMatch(catalog, target) ==> ResolveTarget(catalog, target, false) == Failure(NotFound(target))
    ensures AmbiguousMatch(catalog, target) ==>
      ResolveTarget(catalog, target, false) == Failure(TooMany(1, Filter(catalog, Some(target))))
  {
    var n := |Filter(catalog, Some(target))|;
    if n == 0 {
      ResolveNoMatch(catalog, target);
    } else if n == 1 {
      ResolveOneMatch(catalog, target);
    } else {
      ResolveSeveralMatches(catalog, target);
    }
  }

  lemma {:induction false} ResolveNoMatch(catalog: seq<ObjectMetadata>, target: string)
    requires |Filter(catalog, Some(target))| == 0
    ensures NoMatch(catalog, target) && !AmbiguousMatch(catalog, target)
    ensures forall i :: !UniqueMatch(catalog, target, i)
    ensures ResolveTarget(catalog, target, false) == Failure(NotFound(target))
  {
    var idx := KeptIndices(catalog, Some(target));
    FilterKeepsMatchesInOrder(catalog, Some(target));
    assert forall i :: 0 <= i < |catalog| ==> !Matches(catalog[i], Some(target));
  }

  lemma {:induction false} ResolveOneMatch(catalog: seq<ObjectMetadata>, target: string)
    requires |Filter(catalog, Some(target))| == 1
    ensures !NoMatch(catalog, target) && !AmbiguousMatch(catalog, target)
    ensures exists i :: UniqueMatch(catalog, target, i)
    ensures forall i :: UniqueMatch(catalog, target, i) ==>
      ResolveTarget(catalog, target, false) == Success(catalog[i].id)
  {
    var idx := KeptIndices(catalog, Some(target));
    FilterKeepsMatchesInOrder(catalog, Some(target));
    var i0 := idx[0];
    assert i0 in idx;
    assert Matches(catalog[i0], Some(target));
    assert forall j :: 0 <= j < |catalog| && Matches(catalog[j], Some(target)) ==> j == i0 by {
      forall j | 0 <= j < |catalog| && Matches(catalog[j], Some(target)) ensures j == i0 {
        assert j in idx;
      }
    }
    assert UniqueMatch(catalog, target, i0);
  }

  lemma {:induction false} ResolveSeveralMatches(catalog: seq<ObjectMetadata>, target: string)
    requires |Filter(catalog, Some(target))| > 1
    ensures !NoMatch(catalog, target) && AmbiguousMatch(catalog, target)
    ensures forall i :: !UniqueMatch(catalog, target, i)
    ensures ResolveTarget(catalog, target, false) == Failure(TooMany(1, Filter(catalog, Some(target))))
  {
    var idx := KeptIndices(catalog, Some(target));
    FilterKeepsMatchesInOrder(catalog, Some(target));
    var i, j := idx[0], idx[1];
    assert i in idx && j in idx && i < j;
    assert Matches(catalog[i], Some(target)) && Matches(catalog[j], Some(target));
  }

  /** The `dl` arguments that matter for resolution: the target, the output
      path (irrelevant to resolution) and the id flag. */
  datatype DownloadArgs = DownloadArgs(target: string, output: Option<string>, id: bool)

  /** The `rm` arguments: the target and the id flag. */
  datatype RemoveArgs = RemoveArgs(target: string, id: bool)

  /** The id `dl` fetches. */
  function DownloadFileId(catalog: seq<ObjectMetadata>, args: DownloadArgs): (r: Result<string, Error>)
    ensures args.id ==> r == Success(args.target)
    ensures !args.id ==> (r.Success? <==> exists i :: UniqueMatch(catalog, args.target, i))
    ensures forall i :: !args.id && UniqueMatch(catalog, args.target, i) ==> r == Success(catalog[i].id)
    ensures !args.id && NoMatch(catalog, args.target) ==> r == Failure(NotFound(args.target))
  {
    ResolveByName(catalog, args.target);
    ResolveTarget(catalog, args.target, args.id)
  }

  /** The id `rm` deletes. It is resolved exactly as `dl` resolves the same
      target with the same flag, whatever `dl`'s output path. */
  function RemoveFileId(catalog: seq<ObjectMetadata>, args: RemoveArgs): (r: Result<string, Error>)
    ensures args.id ==> r == Success(args.target)
    ensures forall output :: r == DownloadFileId(catalog, DownloadArgs(args.target, output, args.id))
  {
    ResolveTarget(catalog, args.target, args.id)
  }
}

/** The remote file catalog and the name filter of `get_filelist`
    (src/main.rs:273-282). The catalog is the list the storage client
    returns; here it is simply a sequence of metadata records. */
module Catalog {
  import opened Wrappers
  import opened Text

  /** One remote file's descriptor: an opaque stable id, a display name
      (not necessarily unique), the size in bytes and the modification
      timestamp, which the listing treats as an opaque string. */
  datatype ObjectMetadata = ObjectMetadata(id: string, name: string, size: nat, lastModified: string)

  /** The filter closure: no filter keeps everything, `Some(f)` keeps the
      files whose name contains `f`. */
  predicate Matches(file: ObjectMetadata, filter: Option<string>) {
    filter.None? || Contains(file.name, filter.value)
  }

  /** The catalog with the non-matching files dropped, order kept. */
  function Filter(catalog: seq<ObjectMetadata>, filter: Option<string>): (r: seq<ObjectMetadata>)
    ensures |r| <= |catalog|
  {
    if |catalog| == 0 then []
    else
      var init := catalog[..|catalog| - 1];
      var last := catalog[|catalog| - 1];
      Filter(init, filter) + (if Matches(last, filter) then [last] else [])
  }

  /** The catalog positions the filter keeps, in increasing order. */
  ghost function KeptIndices(catalog: seq<ObjectMetadata>, filter: Option<string>): seq<nat>
  {
    if |catalog| == 0 then []
    else
      var n := |catalog| - 1;
      KeptIndices(catalog[..n], filter) + (if Matches(catalog[n], filter) then [n] else [])
  }

  /** `r` is the subsequence of `catalog` at the strictly increasing
      positions `idx`, which are exactly the positions whose file matches. */
  ghost predicate IsFilteredSubsequence(
    catalog: seq<ObjectMetadata>, filter: Option<string>, r: seq<ObjectMetadata>, idx: seq<nat>)
  {
    && |idx| == |r|
    && (forall k :: 0 <= k < |idx| ==> idx[k] < |catalog| && r[k] == catalog[idx[k]])
    && (forall k, l :: 0 <= k < l < |idx| ==> idx[k] < idx[l])
    && (forall i :: 0 <= i < |catalog| ==> (Matches(catalog[i], filter) <==> i in idx))
  }

  /** The filter keeps exactly the matching entries, in catalog order. */
  lemma {:induction false} FilterKeepsMatchesInOrder(catalog: seq<ObjectMetadata>, filter: Option<string>)
    ensures IsFilteredSubsequence(catalog, filter, Filter(catalog, filter), KeptIndices(catalog, filter))
  {
    if |catalog| > 0 {
      var n := |catalog| - 1;
      var init := catalog[..n];
      FilterKeepsMatchesInOrder(init, filter);
      var r0, idx0 := Filter(init, filter), KeptIndices(init, filter);
      assert forall k :: 0 <= k < |idx0| ==> idx0[k] < n;
      assert forall i :: 0 <= i < n ==> catalog[i] == init[i];
    }
  }

  /** Without a filter the whole catalog is kept. */
  lemma {:induction false} NoFilterKeepsAll(catalog: seq<ObjectMetadata>)
    ensures Filter(catalog, None) == catalog
  {
    if |catalog| > 0 {
      NoFilterKeepsAll(catalog[..|catalog| - 1]);
    }
  }

  /** Filtering distributes over concatenation of catalogs. */
  lemma {:induction false} FilterAppend(c1: seq<ObjectMetadata>, c2: seq<ObjectMetadata>, filter: Option<string>)
    ensures Filter(c1 + c2, filter) == Filter(c1, filter) + Filter(c2, filter)
    decreases |c2|
  {
    if |c2| > 0 {
      var n := |c2| - 1;
      FilterAppend(c1, c2[..n], filter);
      assert (c1 + c2)[..|c1 + c2| - 1] == c1 + c2[..n];
    } else {
      assert c1 + c2 == c1;
    }
  }
}

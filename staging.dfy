/**
 * The list of staged files on the upload page: dropping appends new items,
 * removing takes out the first item with a given id.
 */
module Staging {
  import opened Wrappers

  /** A browser file as the page sees it: its name and its size in bytes. */
  datatype Blob = Blob(name: string, size: nat)

  /** One entry of the staged list. */
  datatype FileItem = FileItem(id: string, file: Blob, isValid: bool)

  /** No id appears twice in the list. */
  predicate DistinctIds(files: seq<FileItem>)
  {
    forall i, j :: 0 <= i < j < |files| ==> files[i].id != files[j].id
  }

  /** The ids of the listed items. */
  function Ids(files: seq<FileItem>): set<string>
  {
    set i | 0 <= i < |files| :: files[i].id
  }

  /**
   * The ids handed to a drop are fresh: pairwise distinct and unused by the
   * list they are added to (the generated uuids are assumed unique).
   */
  predicate FreshIds(ids: seq<string>, files: seq<FileItem>)
  {
    (forall i, j :: 0 <= i < j < |ids| ==> ids[i] != ids[j]) &&
    (forall i :: 0 <= i < |ids| ==> ids[i] !in Ids(files))
  }

  /** The items a drop creates: one per blob, in the given order, each valid. */
  function NewItems(ids: seq<string>, blobs: seq<Blob>): (r: seq<FileItem>)
    requires |ids| == |blobs|
    ensures |r| == |blobs|
    ensures forall i :: 0 <= i < |r| ==> r[i] == FileItem(ids[i], blobs[i], true)
  {
    if blobs == [] then []
    else [FileItem(ids[0], blobs[0], true)] + NewItems(ids[1..], blobs[1..])
  }

  /** The list after a drop: the old items, then the new ones. */
  function Dropped(files: seq<FileItem>, blobs: seq<Blob>, ids: seq<string>): (r: seq<FileItem>)
    requires |ids| == |blobs|
    ensures |r| == |files| + |blobs|
    ensures r[..|files|] == files
    ensures forall i :: 0 <= i < |blobs| ==> r[|files| + i] == FileItem(ids[i], blobs[i], true)
  {
    files + NewItems(ids, blobs)
  }

  /** With fresh ids, a drop keeps the ids of the list distinct. */
  lemma DroppedKeepsDistinct(files: seq<FileItem>, blobs: seq<Blob>, ids: seq<string>)
    requires |ids| == |blobs|
    requires DistinctIds(files) && FreshIds(ids, files)
    ensures DistinctIds(Dropped(files, blobs, ids))
  {
    var r := Dropped(files, blobs, ids);
    var n := |files|;
    forall i, j | 0 <= i < j < |r| ensures r[i].id != r[j].id {
      if j < n {
        assert r[i] == files[i] && r[j] == files[j];
      } else if i < n {
        assert r[i] == files[i];
        assert files[i].id in Ids(files);
        assert r[j].id == ids[j - n];
      } else {
        assert r[i].id == ids[i - n] && r[j].id == ids[j - n];
      }
    }
  }

  /** The position of the first item whose id is `id` (Array.prototype.findIndex). */
  function FirstIndex(files: seq<FileItem>, id: string): (r: Option<nat>)
    ensures r.None? <==> forall j :: 0 <= j < |files| ==> files[j].id != id
    ensures r.Some? ==> r.value < |files| && files[r.value].id == id
    ensures r.Some? ==> forall j :: 0 <= j < r.value ==> files[j].id != id
  {
    if files == [] then None
    else if files[0].id == id then Some(0)
    else match FirstIndex(files[1..], id)
      case None => None
      case Some(k) => Some(k + 1)
  }

  /** The list after removing by id: without its first match, or unchanged when there is none. */
  function Removed(files: seq<FileItem>, id: string): (r: seq<FileItem>)
    ensures id !in Ids(files) ==> r == files
    ensures id in Ids(files) ==> |r| == |files| - 1
  {
    match FirstIndex(files, id)
    case None => files
    case Some(k) => files[..k] + files[k + 1..]
  }

  /** Removing an id that no item carries leaves the list unchanged. */
  lemma RemovedAbsent(files: seq<FileItem>, id: string)
    requires id !in Ids(files)
    ensures Removed(files, id) == files
  {
  }

  /**
   * When the first item carrying `id` sits at `k`, removing takes out
   * exactly that item: the items before and after it stay, in their
   * order, and nothing else is lost.
   */
  lemma RemovedFirstMatch(files: seq<FileItem>, id: string, k: nat)
    requires k < |files| && files[k].id == id
    requires forall j :: 0 <= j < k ==> files[j].id != id
    ensures Removed(files, id) == files[..k] + files[k + 1..]
    ensures multiset(Removed(files, id)) + multiset{files[k]} == multiset(files)
  {
    var m := FirstIndex(files, id);
    assert m.Some?;
    assert !(m.value < k) && !(k < m.value);
    assert files == files[..k] + [files[k]] + files[k + 1..];
  }

  /** With distinct ids, removing keeps the ids distinct. */
  lemma RemovedKeepsDistinct(files: seq<FileItem>, id: string)
    requires DistinctIds(files)
    ensures DistinctIds(Removed(files, id))
  {
    if FirstIndex(files, id).Some? {
      var k := FirstIndex(files, id).value;
      var r := Removed(files, id);
      assert r == files[..k] + files[k + 1..];
      forall i, j | 0 <= i < j < |r| ensures r[i].id != r[j].id {
        var i' := if i < k then i else i + 1;
        var j' := if j < k then j else j + 1;
        assert r[i] == files[i'] && r[j] == files[j'];
      }
    }
  }

  /** With distinct ids, no item carrying `id` is left after removing it. */
  lemma RemovedDropsId(files: seq<FileItem>, id: string)
    requires DistinctIds(files)
    ensures forall j :: 0 <= j < |Removed(files, id)| ==> Removed(files, id)[j].id != id
  {
    if FirstIndex(files, id).Some? {
      var k := FirstIndex(files, id).value;
      var r := Removed(files, id);
      assert r == files[..k] + files[k + 1..];
      forall j | 0 <= j < |r| ensures r[j].id != id {
        var j' := if j < k then j else j + 1;
        assert r[j] == files[j'] && j' != k;
      }
    }
  }

  /**
   * The position of the first item of `a` whose id is `id`, or -1 when
   * there is none, found by a scan from the front.
   */
  method FindIndex(a: array<FileItem>, id: string) returns (k: int)
    ensures -1 <= k < a.Length
    ensures k == -1 <==> forall j :: 0 <= j < a.Length ==> a[j].id != id
    ensures 0 <= k ==> a[k].id == id && forall j :: 0 <= j < k ==> a[j].id != id
  {
    k := 0;
    while k < a.Length
      invariant 0 <= k <= a.Length
      invariant forall j :: 0 <= j < k ==> a[j].id != id
    {
      if a[k].id == id {
        return;
      }
      k := k + 1;
    }
    k := -1;
  }

  /**
   * Deletes position `k` of `a` in place, as `splice(k, 1)` does: every
   * later element moves one place to the front. An array cannot shrink, so
   * the last cell keeps its old value and the spliced array is `a[..a.Length - 1]`.
   */
  method SpliceOut<T>(a: array<T>, k: nat)
    requires k < a.Length
    modifies a
    ensures a[..a.Length - 1] == old(a[..k]) + old(a[k + 1..])
  {
    var i := k;
    while i < a.Length - 1
      invariant k <= i <= a.Length - 1
      invariant a[..k] == old(a[..k])
      invariant forall j :: k <= j < i ==> a[j] == old(a[j + 1])
      invariant forall j :: i <= j < a.Length ==> a[j] == old(a[j])
    {
      a[i] := a[i + 1];
      i := i + 1;
    }
  }
}

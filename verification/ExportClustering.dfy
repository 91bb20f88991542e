/** Reconstructing which cluster every dataset row belongs to, from the records of an
    index. */
module ExportClustering {
  import opened OrderStats
  import opened Pigeonhole
  import opened Bits
  import opened Status
  import VecsFile

  const INVALID_CLUSTER := 0xFFFF_FFFF

  /** What reading one record gives: its image id, no INT64 id, or a failed read. */
  datatype Record = WithId(id: int) | NoId | Unreadable

  datatype Cluster = Loaded(records: seq<Record>) | NotLoaded

  predicate Readable(c: Cluster) {
    c.Loaded? && forall i :: 0 <= i < |c.records| ==> c.records[i].WithId?
  }

  predicate AllReadable(clusters: seq<Cluster>) {
    forall c :: 0 <= c < |clusters| ==> Readable(clusters[c])
  }

  /** The ids of some records, in order. */
  function Ids(records: seq<Record>): (ids: seq<int>)
    ensures |ids| == |records|
  {
    seq(|records|, i requires 0 <= i < |records| => if records[i].WithId? then records[i].id else 0)
  }

  function ClusterIds(c: Cluster): seq<int> {
    if c.Loaded? then Ids(c.records) else []
  }

  /** The ids of all records of the first k clusters. */
  function AllIds(clusters: seq<Cluster>, k: nat): seq<int>
    requires k <= |clusters|
  {
    if k == 0 then [] else AllIds(clusters, k - 1) + ClusterIds(clusters[k - 1])
  }

  /** Every row holds the id of its row; ids that occur twice map to their last row. */
  ghost predicate RowMap(m: map<int, nat>, imageIds: seq<int>) {
    && (forall id :: id in m ==> m[id] < |imageIds| && imageIds[m[id]] == id)
    && (forall row :: 0 <= row < |imageIds| ==> imageIds[row] in m)
  }

  method BuildRowMap(imageIds: seq<int>) returns (m: map<int, nat>)
    ensures RowMap(m, imageIds)
  {
    m := map[];
    for i := 0 to |imageIds|
      invariant forall id :: id in m ==> m[id] < i && imageIds[m[id]] == id
      invariant forall row :: 0 <= row < i ==> imageIds[row] in m
    {
      m := m[imageIds[i] := i];
    }
  }

  // ----- the state of the reconstruction -----

  /** seen are the ids assigned so far: all different, each with its row assigned; and
      no other row is assigned. */
  ghost predicate Tracks(a: seq<nat>, m: map<int, nat>, seen: seq<int>) {
    && Distinct(seen)
    && (forall id :: id in seen ==> id in m && m[id] < |a| && a[m[id]] != INVALID_CLUSTER)
    && (forall row :: 0 <= row < |a| && a[row] != INVALID_CLUSTER ==> exists id :: id in seen && id in m && m[id] == row)
  }

  /** Assigned rows carry a cluster whose records include the row's id. */
  ghost predicate Sourced(a: seq<nat>, imageIds: seq<int>, clusters: seq<Cluster>) {
    |a| == |imageIds| &&
    forall row :: 0 <= row < |a| && a[row] != INVALID_CLUSTER ==>
      a[row] < |clusters| && imageIds[row] in ClusterIds(clusters[a[row]])
  }

  method AssignRecord(a: array<nat>, m: map<int, nat>, id: int, cid: nat) returns (ok: bool)
    requires forall x :: x in m ==> m[x] < a.Length
    modifies a
    ensures ok <==> id in m && old(a[m[id]]) == INVALID_CLUSTER
    ensures ok ==> a[..] == old(a[..])[m[id] := cid]
    ensures !ok ==> a[..] == old(a[..])
  {
    if id !in m {
      return false;
    }
    var row := m[id];
    if a[row] != INVALID_CLUSTER {
      return false;
    }
    a[row] := cid;
    ok := true;
  }

  lemma {:induction false} TrackMore(a: seq<nat>, m: map<int, nat>, seen: seq<int>, id: int, cid: nat)
    requires Tracks(a, m, seen) && id in m && m[id] < |a| && a[m[id]] == INVALID_CLUSTER && cid != INVALID_CLUSTER
    ensures Tracks(a[m[id] := cid], m, seen + [id])
  {
    var a' := a[m[id] := cid];
    assert id !in seen;
    forall row | 0 <= row < |a'| && a'[row] != INVALID_CLUSTER
      ensures exists x :: x in seen + [id] && x in m && m[x] == row
    {
      if row == m[id] {
        assert id in seen + [id];
      } else {
        var x :| x in seen && x in m && m[x] == row;
        assert x in seen + [id];
      }
    }
  }

  lemma {:induction false} SourceMore(a: seq<nat>, imageIds: seq<int>, clusters: seq<Cluster>, row: nat, cid: nat)
    requires Sourced(a, imageIds, clusters) && row < |a| && cid < |clusters|
    requires imageIds[row] in ClusterIds(clusters[cid])
    ensures Sourced(a[row := cid], imageIds, clusters)
  {
  }

  // ----- when it succeeds -----

  /** Exactly the exports that make sense: every record readable, and the records' ids
      are the dataset's ids, each once. */
  ghost predicate Complete(imageIds: seq<int>, clusters: seq<Cluster>) {
    && AllReadable(clusters)
    && Distinct(imageIds)
    && multiset(AllIds(clusters, |clusters|)) == multiset(imageIds)
  }

  /** A list of ids of which none may be repeated and none may be missing from the
      dataset: it begins the list of all ids. */
  lemma {:induction false} PrefixOfAll(clusters: seq<Cluster>, k: nat, n: nat)
    requires k < |clusters| && n <= |ClusterIds(clusters[k])|
    ensures AllIds(clusters, k) + ClusterIds(clusters[k])[..n] <= AllIds(clusters, |clusters|)
  {
    hide ClusterIds;
    AllIdsGrow(clusters, k + 1, |clusters|);
    assert AllIds(clusters, k) + ClusterIds(clusters[k])[..n] <= AllIds(clusters, k + 1);
  }

  lemma {:induction false} AllIdsGrow(clusters: seq<Cluster>, k: nat, n: nat)
    requires k <= n <= |clusters|
    ensures AllIds(clusters, k) <= AllIds(clusters, n)
    decreases n
  {
    hide ClusterIds;
    if k < n {
      AllIdsGrow(clusters, k, n - 1);
    }
  }

  /** A list that starts with a foreign or repeated id is not a rearrangement of the
      dataset's distinct ids. */
  lemma {:induction false} BadPrefix(prefix: seq<int>, all: seq<int>, imageIds: seq<int>, i: nat)
    requires prefix <= all && i < |prefix|
    requires prefix[i] !in imageIds || exists j :: 0 <= j < i && prefix[j] == prefix[i]
    ensures !(Distinct(imageIds) && multiset(all) == multiset(imageIds))
  {
    assert all[i] == prefix[i];
    if multiset(all) == multiset(imageIds) {
      assert all[i] in multiset(all);
      assert prefix[i] in imageIds;
      var j :| 0 <= j < i && prefix[j] == prefix[i];
      assert all[j] == all[i];
      BagSize(all, imageIds);
      SameElements(all, imageIds);
      DuplicateShrinks(all, j, i);
      if Distinct(imageIds) {
        DistinctSize(imageIds);
      }
    }
  }

  lemma {:induction false} SameElements(s: seq<int>, t: seq<int>)
    requires multiset(s) == multiset(t)
    ensures Elements(s) == Elements(t)
  {
    forall x ensures x in s <==> x in t {
      assert x in multiset(s) <==> x in s;
      assert x in multiset(t) <==> x in t;
    }
  }

  /** The pigeonhole step: as many different ids as rows, all of them dataset ids, mean
      that no id of the dataset repeats and every row was assigned. */
  lemma {:induction false} FullCount(a: seq<nat>, imageIds: seq<int>, m: map<int, nat>, seen: seq<int>)
    requires RowMap(m, imageIds) && Tracks(a, m, seen) && |a| == |imageIds| == |seen|
    ensures Distinct(imageIds) && multiset(seen) == multiset(imageIds)
    ensures forall row :: 0 <= row < |a| ==> a[row] != INVALID_CLUSTER
  {
    forall x | x in seen ensures x in imageIds {
      assert imageIds[m[x]] == x;
    }
    DistinctFill(seen, imageIds);
    DistinctBags(seen, imageIds);
    forall row | 0 <= row < |a| ensures a[row] != INVALID_CLUSTER {
      assert imageIds[row] in Elements(imageIds);
      assert imageIds[row] in seen && imageIds[m[imageIds[row]]] == imageIds[row];
    }
  }

  lemma {:induction false} DistinctBags(s: seq<int>, t: seq<int>)
    requires Distinct(s) && Distinct(t) && Elements(s) == Elements(t)
    ensures multiset(s) == multiset(t)
  {
    var b, c := multiset(s), multiset(t);
    forall x ensures b[x] == c[x] {
      DistinctOnce(s, x);
      DistinctOnce(t, x);
      assert x in s <==> x in Elements(s);
      assert x in t <==> x in Elements(t);
    }
  }

  lemma {:induction false} DistinctOnce(s: seq<int>, x: int)
    requires Distinct(s)
    ensures multiset(s)[x] == if x in s then 1 else 0
  {
    if s != [] {
      HeadBag(s);
      DistinctOnce(s[1..], x);
    }
  }

  // ----- the reconstruction -----

  lemma {:induction false} NotReadable(imageIds: seq<int>, clusters: seq<Cluster>, cid: nat)
    requires cid < |clusters| && !Readable(clusters[cid])
    ensures !Complete(imageIds, clusters)
  {
  }

  /** One cluster's records. */
  method AssignCluster(a: array<nat>, m: map<int, nat>, imageIds: seq<int>, clusters: seq<Cluster>, cid: nat, numAssigned: nat)
      returns (ok: bool, r: nat)
    requires RowMap(m, imageIds) && a.Length == |imageIds| && cid < |clusters| < INVALID_CLUSTER + 1
    requires numAssigned == |AllIds(clusters, cid)| && Tracks(a[..], m, AllIds(clusters, cid)) && Sourced(a[..], imageIds, clusters)
    modifies a
    ensures !ok ==> !Complete(imageIds, clusters)
    ensures ok ==> Readable(clusters[cid]) && Sourced(a[..], imageIds, clusters)
    ensures ok ==> r == |AllIds(clusters, cid + 1)| && Tracks(a[..], m, AllIds(clusters, cid + 1))
  {
    hide Tracks, Sourced, Complete;
    r := numAssigned;
    if clusters[cid].NotLoaded? {
      NotReadable(imageIds, clusters, cid);
      return false, r;
    }
    var records := clusters[cid].records;
    assert AllIds(clusters, cid) + Ids(records)[..0] == AllIds(clusters, cid);
    for ridx := 0 to |records|
      invariant forall i :: 0 <= i < ridx ==> records[i].WithId?
      invariant r == |AllIds(clusters, cid)| + ridx
      invariant Tracks(a[..], m, AllIds(clusters, cid) + Ids(records)[..ridx]) && Sourced(a[..], imageIds, clusters)
    {
      if !records[ridx].WithId? {
        NotReadable(imageIds, clusters, cid);
        return false, r;
      }
      ghost var before := a[..];
      ok := AssignRecord(a, m, records[ridx].id, cid);
      if !ok {
        RecordFails(before, m, imageIds, clusters, cid, ridx);
        return;
      }
      RecordAssigned(before, m, imageIds, clusters, cid, ridx);
      r := r + 1;
    }
    ok := true;
    assert Ids(records)[..|records|] == Ids(records);
  }

  lemma {:induction false} RecordAssigned(a: seq<nat>, m: map<int, nat>, imageIds: seq<int>, clusters: seq<Cluster>,
                                          cid: nat, ridx: nat)
    requires RowMap(m, imageIds) && |a| == |imageIds| && cid < |clusters| < INVALID_CLUSTER + 1
    requires clusters[cid].Loaded? && ridx < |clusters[cid].records| && clusters[cid].records[ridx].WithId?
    requires Tracks(a, m, AllIds(clusters, cid) + Ids(clusters[cid].records)[..ridx]) && Sourced(a, imageIds, clusters)
    requires var id := clusters[cid].records[ridx].id; id in m && a[m[id]] == INVALID_CLUSTER
    ensures var a' := a[m[clusters[cid].records[ridx].id] := cid];
      && Tracks(a', m, AllIds(clusters, cid) + Ids(clusters[cid].records)[..ridx + 1])
      && Sourced(a', imageIds, clusters)
  {
    var ids := Ids(clusters[cid].records);
    var id := ids[ridx];
    var seen := AllIds(clusters, cid) + ids[..ridx];
    TrackMore(a, m, seen, id, cid);
    assert seen + [id] == AllIds(clusters, cid) + ids[..ridx + 1];
    SourceMore(a, imageIds, clusters, m[id], cid);
  }

  lemma {:induction false} RecordFails(a: seq<nat>, m: map<int, nat>, imageIds: seq<int>, clusters: seq<Cluster>,
                                       cid: nat, ridx: nat)
    requires RowMap(m, imageIds) && |a| == |imageIds| && cid < |clusters|
    requires clusters[cid].Loaded? && ridx < |clusters[cid].records| && clusters[cid].records[ridx].WithId?
    requires Tracks(a, m, AllIds(clusters, cid) + Ids(clusters[cid].records)[..ridx])
    requires var id := clusters[cid].records[ridx].id; id !in m || a[m[id]] != INVALID_CLUSTER
    ensures !Complete(imageIds, clusters)
  {
    var ids := Ids(clusters[cid].records);
    var id := ids[ridx];
    var seen := AllIds(clusters, cid) + ids[..ridx];
    var prefix := AllIds(clusters, cid) + ids[..ridx + 1];
    PrefixOfAll(clusters, cid, ridx + 1);
    assert prefix == seen + [id];
    if id in m {
      var x :| x in seen && x in m && m[x] == m[id];
      assert x == id;
      var j :| 0 <= j < |seen| && seen[j] == id;
      assert prefix[j] == prefix[|seen|];
    }
    BadPrefix(prefix, AllIds(clusters, |clusters|), imageIds, |seen|);
  }

  lemma {:induction false} NothingAssigned(a: seq<nat>, m: map<int, nat>, imageIds: seq<int>, clusters: seq<Cluster>)
    requires |a| == |imageIds| && forall row :: 0 <= row < |a| ==> a[row] == INVALID_CLUSTER
    ensures Tracks(a, m, []) && Sourced(a, imageIds, clusters)
  {
  }

  lemma {:induction false} NoIds(clusters: seq<Cluster>)
    ensures AllIds(clusters, 0) == []
  {
  }

  /** With every record assigned, the final count decides. */
  lemma {:induction false} CountDecides(a: seq<nat>, m: map<int, nat>, imageIds: seq<int>, clusters: seq<Cluster>)
    requires RowMap(m, imageIds) && AllReadable(clusters) && Sourced(a, imageIds, clusters)
    requires Tracks(a, m, AllIds(clusters, |clusters|))
    ensures |AllIds(clusters, |clusters|)| == |imageIds| <==> Complete(imageIds, clusters)
    ensures Complete(imageIds, clusters) ==> forall row :: 0 <= row < |a| ==> a[row] < |clusters|
  {
    var all := AllIds(clusters, |clusters|);
    if |all| == |imageIds| {
      FullCount(a, imageIds, m, all);
    }
    if multiset(all) == multiset(imageIds) {
      BagSize(all, imageIds);
    }
  }

  /** Succeeds exactly on complete exports.  Then every row has one cluster below nlist,
      one that has a record with the row's id, and the record counts add up to the row
      count. */
  method ReconstructAssignments(imageIds: seq<int>, clusters: seq<Cluster>) returns (ok: bool, assignments: array<nat>)
    requires |clusters| < INVALID_CLUSTER + 1
    ensures fresh(assignments)
    ensures ok <==> Complete(imageIds, clusters)
    ensures ok ==> Sourced(assignments[..], imageIds, clusters)
    ensures ok ==> forall row :: 0 <= row < assignments.Length ==> assignments[row] < |clusters|
    ensures ok ==> |AllIds(clusters, |clusters|)| == |imageIds| == assignments.Length
  {
    hide Tracks, Sourced, Complete, RowMap, AllIds, Readable;
    var m := BuildRowMap(imageIds);
    assignments := new nat[|imageIds|](i => INVALID_CLUSTER);
    NothingAssigned(assignments[..], m, imageIds, clusters);
    NoIds(clusters);
    var numAssigned := 0;
    for cid := 0 to |clusters|
      invariant forall c :: 0 <= c < cid ==> Readable(clusters[c])
      invariant numAssigned == |AllIds(clusters, cid)|
      invariant Tracks(assignments[..], m, AllIds(clusters, cid)) && Sourced(assignments[..], imageIds, clusters)
    {
      ok, numAssigned := AssignCluster(assignments, m, imageIds, clusters, cid, numAssigned);
      if !ok {
        return;
      }
    }
    ok := numAssigned == |imageIds|;
    CountDecides(assignments[..], m, imageIds, clusters);
  }

  /** Reconstructs and writes.  A complete export of at least one row loads back to the
      reconstructed assignments; one of no rows writes a file that does not load. */
  method ExportAssignments(imageIds: seq<int>, clusters: seq<Cluster>) returns (ok: bool, file: seq<byte>, written: seq<nat>)
    requires |clusters| < INVALID_CLUSTER + 1 && |imageIds| < UINT32_RANGE
    ensures ok <==> Complete(imageIds, clusters)
    ensures ok ==> |written| == |imageIds| && Sourced(written, imageIds, clusters)
    ensures ok ==> forall row :: 0 <= row < |written| ==> written[row] < |clusters|
    ensures ok ==> (VecsFile.LoadedVecs(file) == Ok(VecsFile.VecsArray(|written|, 1, written)) <==> imageIds != [])
  {
    hide Sourced, Complete;
    var assignments;
    ok, assignments := ReconstructAssignments(imageIds, clusters);
    if !ok {
      return ok, [], [];
    }
    written := assignments[..];
    file := VecsFile.WriteIvecs(written);
    VecsFile.AssignmentsLoadBack(written);
  }

  // ----- what a complete export says -----

  /** The cluster of a row is the only one with a record of the row's id. */
  lemma {:induction false} OneClusterPerRow(imageIds: seq<int>, clusters: seq<Cluster>, row: nat, c: nat, d: nat)
    requires Complete(imageIds, clusters) && row < |imageIds| && c < |clusters| && d < |clusters|
    requires imageIds[row] in ClusterIds(clusters[c]) && imageIds[row] in ClusterIds(clusters[d])
    ensures c == d
  {
    var all := AllIds(clusters, |clusters|);
    BagSize(all, imageIds);
    SameElements(all, imageIds);
    DistinctSize(imageIds);
    if c < d {
      TwoPlaces(clusters, c, d, imageIds[row]);
    } else if d < c {
      TwoPlaces(clusters, d, c, imageIds[row]);
    }
  }

  lemma {:induction false} TwoPlaces(clusters: seq<Cluster>, c: nat, d: nat, id: int)
    requires c < d < |clusters| && id in ClusterIds(clusters[c]) && id in ClusterIds(clusters[d])
    ensures var all := AllIds(clusters, |clusters|); |Elements(all)| < |all|
  {
    hide AllIds, ClusterIds;
    var all := AllIds(clusters, |clusters|);
    var i := PlaceOf(clusters, c, id);
    var j := PlaceOf(clusters, d, id);
    AllIdsGrow(clusters, c + 1, d);
    DuplicateShrinks(all, i, j);
  }

  lemma {:induction false} PlaceOf(clusters: seq<Cluster>, c: nat, id: int) returns (i: nat)
    requires c < |clusters| && id in ClusterIds(clusters[c])
    ensures |AllIds(clusters, c)| <= i < |AllIds(clusters, c + 1)|
    ensures i < |AllIds(clusters, |clusters|)| && AllIds(clusters, |clusters|)[i] == id
  {
    hide ClusterIds;
    var k :| 0 <= k < |ClusterIds(clusters[c])| && ClusterIds(clusters[c])[k] == id;
    i := |AllIds(clusters, c)| + k;
    AllIdsGrow(clusters, c + 1, |clusters|);
    assert AllIds(clusters, c + 1)[i] == id;
  }
}

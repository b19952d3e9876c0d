/**
 * The watch registry of automated_ebs_snapshots/volume_manager.py.
 *
 * Whether an EBS volume is watched, and at which interval, is kept in one
 * tag of the volume, SkymillEBSSnapshotInterval. The EC2 connection is
 * modelled as an in-memory table from volume id to the volume's tags,
 * together with the order in which the connection lists the volumes.
 */
module VolumeManager {

  type VolumeId = string
  type Tags = map<string, string>
  type Table = map<VolumeId, Tags>

  /** The tag whose presence makes a volume watched. */
  const IntervalTag: string := "SkymillEBSSnapshotInterval"

  /** The backup intervals named in watch's docstring. */
  const ValidIntervals: set<string> := {"hourly", "daily", "weekly", "monthly", "yearly"}

  /** The interval watch uses when the caller gives none. */
  const DefaultInterval: string := "daily"

  predicate Distinct(s: seq<VolumeId>)
  {
    forall i, j :: 0 <= i < j < |s| ==> s[i] != s[j]
  }

  /** s can be obtained from t by deleting elements, without reordering. */
  predicate IsSubsequence(s: seq<VolumeId>, t: seq<VolumeId>)
    decreases |t|
  {
    if s == [] then true
    else if t == [] then false
    else if s[0] == t[0] then IsSubsequence(s[1..], t[1..])
    else IsSubsequence(s, t[1..])
  }

  /** A volume is watched iff it carries the interval tag, whatever its value. */
  predicate IsWatched(table: Table, v: VolumeId)
  {
    v in table && IntervalTag in table[v]
  }

  /**
   * get_watched_volumes: the volumes the connection lists with the tag-key
   * filter on the interval tag, in the connection's listing order.
   */
  function WatchedVolumes(order: seq<VolumeId>, table: Table): (r: seq<VolumeId>)
    ensures forall v :: v in r <==> v in order && IsWatched(table, v)
    ensures IsSubsequence(r, order)
    ensures Distinct(order) ==> Distinct(r)
  {
    if order == [] then []
    else
      var rest := WatchedVolumes(order[1..], table);
      if IsWatched(table, order[0]) then [order[0]] + rest else rest
  }

  /** The three ways list reports a listed volume. */
  datatype IntervalStatus =
    | TagNotFound
    | InvalidInterval
    | Interval(name: string)

  /** The per-volume decision in list's loop. */
  function Classify(tags: Tags): (c: IntervalStatus)
    ensures c == TagNotFound <==> IntervalTag !in tags
    ensures c == InvalidInterval <==> IntervalTag in tags && tags[IntervalTag] !in ValidIntervals
    ensures c.Interval? <==> IntervalTag in tags && tags[IntervalTag] in ValidIntervals
    ensures c.Interval? ==> c.name == tags[IntervalTag] && c.name in ValidIntervals
  {
    if IntervalTag !in tags then TagNotFound
    else if tags[IntervalTag] !in ValidIntervals then InvalidInterval
    else Interval(tags[IntervalTag])
  }

  datatype Row = Row(volumeId: VolumeId, status: IntervalStatus)

  /** What list prints: either the "no watched volumes" notice or one row per watched volume. */
  datatype ListOutcome =
    | NoWatchedVolumes
    | Rows(rows: seq<Row>)

  /** The table after watch(volume_id, interval): the interval tag of that volume set, all else kept. */
  function AfterWatch(table: Table, id: VolumeId, interval: string): (t: Table)
    ensures t.Keys == table.Keys
    ensures forall v :: v in table && v != id ==> t[v] == table[v]
    ensures id in table ==> t[id].Keys == table[id].Keys + {IntervalTag}
    ensures id in table ==> t[id][IntervalTag] == interval
    ensures id in table ==> forall k :: k in table[id] && k != IntervalTag ==> t[id][k] == table[id][k]
    ensures id !in table ==> t == table
  {
    if id in table then table[id := table[id][IntervalTag := interval]] else table
  }

  /** The table after unwatch(volume_id): the interval tag of that volume removed, all else kept. */
  function AfterUnwatch(table: Table, id: VolumeId): (t: Table)
    ensures t.Keys == table.Keys
    ensures forall v :: v in table && v != id ==> t[v] == table[v]
    ensures id in table ==> t[id].Keys == table[id].Keys - {IntervalTag}
    ensures id in table ==> forall k :: k in t[id] ==> t[id][k] == table[id][k]
    ensures !IsWatched(t, id)
    ensures id !in table ==> t == table
  {
    if id in table then table[id := table[id] - {IntervalTag}] else table
  }

  /** Re-adding a tag after removing it is the same as setting it. */
  lemma RemoveThenAdd(tags: Tags, key: string, value: string)
    ensures (tags - {key})[key := value] == tags[key := value]
  {
  }

  /** Removing a tag forgets any value it was just set to. */
  lemma AddThenRemove(tags: Tags, key: string, value: string)
    ensures tags[key := value] - {key} == tags - {key}
  {
  }

  /** s with every occurrence of x removed. */
  function Without(s: seq<VolumeId>, x: VolumeId): seq<VolumeId>
  {
    if s == [] then []
    else if s[0] == x then Without(s[1..], x)
    else [s[0]] + Without(s[1..], x)
  }

  lemma {:induction false} WithoutAbsent(s: seq<VolumeId>, x: VolumeId)
    requires x !in s
    ensures Without(s, x) == s
  {
    if s != [] {
      WithoutAbsent(s[1..], x);
    }
  }

  /**
   * The watched listing of every volume other than id depends only on which
   * of those volumes are watched.
   */
  lemma {:induction false} ListingIgnoresOneVolume(order: seq<VolumeId>, t1: Table, t2: Table, id: VolumeId)
    requires forall v :: v != id ==> (IsWatched(t1, v) <==> IsWatched(t2, v))
    ensures Without(WatchedVolumes(order, t1), id) == Without(WatchedVolumes(order, t2), id)
  {
    if order != [] {
      ListingIgnoresOneVolume(order[1..], t1, t2, id);
    }
  }

  /** watch sets the volume's interval even when it is not valid; list then reports it as such. */
  lemma WatchThenClassify(table: Table, id: VolumeId, interval: string)
    requires id in table
    ensures IsWatched(AfterWatch(table, id, interval), id)
    ensures Classify(AfterWatch(table, id, interval)[id])
      == if interval in ValidIntervals then Interval(interval) else InvalidInterval
  {
  }

  /** Without an explicit interval, watch makes the volume listed as "daily". */
  lemma WatchDefaultIsDaily(table: Table, id: VolumeId)
    requires id in table
    ensures Classify(AfterWatch(table, id, DefaultInterval)[id]) == Interval("daily")
  {
    WatchThenClassify(table, id, DefaultInterval);
  }

  /** Watching twice with the same interval leaves the same table as watching once. */
  lemma WatchIdempotent(table: Table, id: VolumeId, interval: string)
    ensures AfterWatch(AfterWatch(table, id, interval), id, interval) == AfterWatch(table, id, interval)
  {
    if id in table {
      var once := AfterWatch(table, id, interval);
      assert once[id][IntervalTag := interval] == once[id];
      assert once[id := once[id]] == once;
    }
  }

  /** Unwatching twice leaves the same table as unwatching once. */
  lemma UnwatchIdempotent(table: Table, id: VolumeId)
    ensures AfterUnwatch(AfterUnwatch(table, id), id) == AfterUnwatch(table, id)
  {
    if id in table {
      var once := AfterUnwatch(table, id);
      assert once[id] - {IntervalTag} == once[id];
      assert once[id := once[id]] == once;
    }
  }

  /**
   * Watch followed by unwatch: the volume is no longer listed, the table
   * equals the one unwatch alone gives, and the other volumes' listing is
   * the one before the watch.
   */
  lemma WatchUnwatchRoundTrip(order: seq<VolumeId>, table: Table, id: VolumeId, interval: string)
    ensures AfterUnwatch(AfterWatch(table, id, interval), id) == AfterUnwatch(table, id)
    ensures id !in WatchedVolumes(order, AfterUnwatch(AfterWatch(table, id, interval), id))
    ensures !IsWatched(table, id) ==>
      WatchedVolumes(order, AfterUnwatch(AfterWatch(table, id, interval), id)) == WatchedVolumes(order, table)
  {
    var t := AfterUnwatch(AfterWatch(table, id, interval), id);
    if id in table {
      AddThenRemove(table[id], IntervalTag, interval);
      assert t == AfterUnwatch(table, id);
    }
    if !IsWatched(table, id) {
      ListingIgnoresOneVolume(order, t, table, id);
      WithoutAbsent(WatchedVolumes(order, t), id);
      WithoutAbsent(WatchedVolumes(order, table), id);
    }
  }

  /** unwatch drops exactly the named volume from get_watched_volumes, keeping the order of the rest. */
  lemma {:induction false} UnwatchListing(order: seq<VolumeId>, table: Table, id: VolumeId)
    ensures WatchedVolumes(order, AfterUnwatch(table, id)) == Without(WatchedVolumes(order, table), id)
  {
    var t := AfterUnwatch(table, id);
    ListingIgnoresOneVolume(order, t, table, id);
    WithoutAbsent(WatchedVolumes(order, t), id);
  }

  /**
   * watch on a listed volume makes it listed, and leaves the listing of
   * every other volume as it was.
   */
  lemma WatchListing(order: seq<VolumeId>, table: Table, id: VolumeId, interval: string)
    requires id in order && id in table
    ensures id in WatchedVolumes(order, AfterWatch(table, id, interval))
    ensures Without(WatchedVolumes(order, AfterWatch(table, id, interval)), id)
         == Without(WatchedVolumes(order, table), id)
  {
    ListingIgnoresOneVolume(order, AfterWatch(table, id, interval), table, id);
  }

  /**
   * The EC2 connection: its volumes with their tags, and the order in which
   * it lists them.
   */
  class Connection {
    var order: seq<VolumeId>
    var volumes: Table

    ghost predicate Valid()
      reads this
    {
      Distinct(order) && forall v :: v in order <==> v in volumes
    }

    constructor (order: seq<VolumeId>, volumes: Table)
      requires Distinct(order) && forall v :: v in order <==> v in volumes
      ensures Valid()
      ensures this.order == order && this.volumes == volumes
    {
      this.order := order;
      this.volumes := volumes;
    }

    /** boto's Volume.remove_tag: drop the key from the volume's tags, if present. */
    method RemoveTag(id: VolumeId, key: string)
      requires Valid() && id in volumes
      modifies this
      ensures Valid() && order == old(order)
      ensures volumes == old(volumes)[id := old(volumes)[id] - {key}]
    {
      volumes := volumes[id := volumes[id] - {key}];
    }

    /** boto's Volume.add_tag: set the key of the volume's tags to the value. */
    method AddTag(id: VolumeId, key: string, value: string)
      requires Valid() && id in volumes
      modifies this
      ensures Valid() && order == old(order)
      ensures volumes == old(volumes)[id := old(volumes)[id][key := value]]
    {
      volumes := volumes[id := volumes[id][key := value]];
    }

    /**
     * watch: a volume that cannot be looked up gives false and no change;
     * otherwise the interval tag is removed and re-added with the given
     * interval, and the result is true. An interval outside the valid set
     * only raises the warning.
     */
    method Watch(id: VolumeId, interval: string := DefaultInterval) returns (ok: bool, invalidWarning: bool)
      requires Valid()
      modifies this
      ensures Valid() && order == old(order)
      ensures ok <==> id in old(volumes)
      ensures invalidWarning <==> ok && interval !in ValidIntervals
      ensures volumes == AfterWatch(old(volumes), id, interval)
    {
      if id !in volumes {
        return false, false;
      }
      ghost var before := volumes;
      invalidWarning := interval !in ValidIntervals;
      RemoveTag(id, IntervalTag);
      AddTag(id, IntervalTag, interval);
      RemoveThenAdd(before[id], IntervalTag, interval);
      assert volumes == before[id := before[id][IntervalTag := interval]];
      ok := true;
    }

    /**
     * unwatch: the interval tag of the volume is removed if the volume can
     * be looked up; the result is true either way.
     */
    method Unwatch(id: VolumeId) returns (ok: bool)
      requires Valid()
      modifies this
      ensures Valid() && order == old(order)
      ensures ok
      ensures volumes == AfterUnwatch(old(volumes), id)
    {
      if id in volumes {
        RemoveTag(id, IntervalTag);
      }
      ok := true;
    }

    /**
     * list: the notice when no volume is watched; otherwise one row per
     * watched volume, in listing order, with its classification. Every
     * listed volume carries the tag, so "Interval tag not found" never
     * appears.
     */
    method List() returns (out: ListOutcome)
      requires Valid()
      ensures out == NoWatchedVolumes <==> WatchedVolumes(order, volumes) == []
      ensures out == NoWatchedVolumes <==> forall v :: !IsWatched(volumes, v)
      ensures out.Rows? ==> forall v :: IsWatched(volumes, v) <==>
        exists i :: 0 <= i < |out.rows| && out.rows[i].volumeId == v
      ensures out.Rows? ==> forall i, j :: 0 <= i < j < |out.rows| ==> out.rows[i].volumeId != out.rows[j].volumeId
      ensures out.Rows? ==>
        var w := WatchedVolumes(order, volumes);
        |out.rows| == |w| &&
        forall i :: 0 <= i < |w| ==> out.rows[i] == Row(w[i], Classify(volumes[w[i]]))
      ensures out.Rows? ==> forall i :: 0 <= i < |out.rows| ==> out.rows[i].status != TagNotFound
    {
      var w := WatchedVolumes(order, volumes);
      if w == [] {
        return NoWatchedVolumes;
      }
      var rows: seq<Row> := [];
      for i := 0 to |w|
        invariant |rows| == i
        invariant forall j :: 0 <= j < i ==> rows[j] == Row(w[j], Classify(volumes[w[j]]))
      {
        rows := rows + [Row(w[i], Classify(volumes[w[i]]))];
      }
      out := Rows(rows);
    }
  }
}

/**
 The segment ledger (`SegmentTracker`): a map from segment file name to its
 metadata, with status transitions, pruning of deleted entries, statistics and
 newest-first queries. Persisting the map to JSON after each change is not
 modelled; the map itself is the authoritative in-memory ledger.
 */
module Ledger {
  import opened Optional
  import Collections

  const ACTIVE: string := "active"
  const ARCHIVED: string := "archived"
  const DELETED: string := "deleted"

  /**
   What the ledger knows of one segment: which source it was cut from, how far
   into that source it began, its nominal length, when it was first seen, and
   its lifecycle status. The status is free text, as in the source, though the
   system only ever writes the three constants above.
   */
  datatype SegmentMeta = SegmentMeta(
    sourceVideo: string,
    sourceType: string,
    startTime: int,
    duration: nat,
    createdAt: int,
    status: string)

  type Ledger = map<string, SegmentMeta>

  /** A ledger entry together with its segment name, as the history and current-segment queries return it. */
  type Record = (string, SegmentMeta)

  /** Stores a freshly seen segment as `active`, overwriting any earlier entry of that name. */
  function AddSegment(l: Ledger, name: string, sourceVideo: string, sourceType: string,
                      startTime: int, duration: nat, createdAt: int): (r: Ledger)
    ensures r.Keys == l.Keys + {name}
    ensures r[name] == SegmentMeta(sourceVideo, sourceType, startTime, duration, createdAt, ACTIVE)
    ensures forall k :: k in l && k != name ==> r[k] == l[k]
  {
    l[name := SegmentMeta(sourceVideo, sourceType, startTime, duration, createdAt, ACTIVE)]
  }

  /** Sets the status of a known segment; an unknown name leaves the ledger as it is. */
  function UpdateSegmentStatus(l: Ledger, name: string, status: string): (r: Ledger)
    ensures name !in l ==> r == l
    ensures r.Keys == l.Keys
    ensures name in l ==> r[name] == l[name].(status := status)
    ensures forall k :: k in l && k != name ==> r[k] == l[k]
  {
    if name in l then l[name := l[name].(status := status)] else l
  }

  /** The entry of a segment, if the ledger has one. */
  function GetSegmentInfo(l: Ledger, name: string): (r: Option<SegmentMeta>)
    ensures r.Some? <==> name in l
    ensures r.Some? ==> r.value == l[name]
  {
    if name in l then Some(l[name]) else None
  }

  /** Drops exactly the entries whose status is `deleted`; every other entry is kept unchanged. */
  function CleanupDeletedSegments(l: Ledger): (r: Ledger)
    ensures forall k :: k in r <==> k in l && l[k].status != DELETED
    ensures forall k :: k in r ==> r[k] == l[k]
  {
    map k | k in l && l[k].status != DELETED :: l[k]
  }

  /** The names of the entries with status `status`. */
  function WithStatus(l: Ledger, status: string): set<string> {
    set k | k in l && l[k].status == status
  }

  datatype Stats = Stats(total: nat, active: nat, archived: nat, deleted: nat)

  /** True when every entry carries one of the three statuses the system writes. */
  predicate KnownStatuses(l: Ledger) {
    forall k :: k in l ==> l[k].status in {ACTIVE, ARCHIVED, DELETED}
  }

  /**
   Entry counts: the total is the ledger's size, and each status count is the
   number of entries with that status. An entry with any other status is in the
   total only, so the three counts add up to the total exactly when every status
   is one of the three.
   */
  function GetStats(l: Ledger): (r: Stats)
    ensures r.total == |l|
    ensures r.active == |WithStatus(l, ACTIVE)|
    ensures r.archived == |WithStatus(l, ARCHIVED)|
    ensures r.deleted == |WithStatus(l, DELETED)|
    ensures r.active + r.archived + r.deleted <= r.total
    ensures r.active + r.archived + r.deleted == r.total <==> KnownStatuses(l)
  {
    var a := WithStatus(l, ACTIVE);
    var b := WithStatus(l, ARCHIVED);
    var c := WithStatus(l, DELETED);
    StatusCountsBound(l);
    Stats(|l|, |a|, |b|, |c|)
  }

  lemma StatusCountsBound(l: Ledger)
    ensures |WithStatus(l, ACTIVE)| + |WithStatus(l, ARCHIVED)| + |WithStatus(l, DELETED)| <= |l|
    ensures |WithStatus(l, ACTIVE)| + |WithStatus(l, ARCHIVED)| + |WithStatus(l, DELETED)| == |l|
        <==> KnownStatuses(l)
  {
    var a := WithStatus(l, ACTIVE);
    var b := WithStatus(l, ARCHIVED);
    var c := WithStatus(l, DELETED);
    assert |a + b + c| == |a| + |b| + |c| by {
      assert a !! b && (a + b) !! c;
    }
    Collections.SubsetCardinality(a + b + c, l.Keys);
    if !KnownStatuses(l) {
      var k :| k in l && l[k].status !in {ACTIVE, ARCHIVED, DELETED};
      assert k !in a + b + c;
    } else {
      assert l.Keys == a + b + c;
    }
  }

  /**
   Pruning empties the `deleted` count, keeps the `active` and `archived`
   counts, and lowers the total by exactly the number of entries it dropped.
   */
  lemma CleanupRemovesDeletedCount(l: Ledger)
    ensures GetStats(CleanupDeletedSegments(l)).deleted == 0
    ensures GetStats(CleanupDeletedSegments(l)).active == GetStats(l).active
    ensures GetStats(CleanupDeletedSegments(l)).archived == GetStats(l).archived
    ensures GetStats(CleanupDeletedSegments(l)).total == GetStats(l).total - GetStats(l).deleted
  {
    var r := CleanupDeletedSegments(l);
    var gone := WithStatus(l, DELETED);
    assert WithStatus(r, DELETED) == {};
    assert WithStatus(r, ACTIVE) == WithStatus(l, ACTIVE);
    assert WithStatus(r, ARCHIVED) == WithStatus(l, ARCHIVED);
    assert r.Keys == l.Keys - gone;
    assert |r.Keys| == |l.Keys| - |gone| by {
      assert l.Keys == r.Keys + gone && r.Keys !! gone;
    }
  }

  /** The key under which the statistics report the entry count. */
  const TOTAL: string := "total"

  /**
   The counts as the statistics loop computes them: it adds one to the counter
   named by each entry's status whenever such a counter exists, and the entry
   count's own key is one of the counters, so an entry whose status reads
   `total` is counted in the total a second time.
   */
  function GetStatsAsWritten(l: Ledger): (r: Stats)
    ensures r.active == GetStats(l).active && r.archived == GetStats(l).archived
    ensures r.deleted == GetStats(l).deleted
    ensures r.total == GetStats(l).total + |WithStatus(l, TOTAL)|
  {
    Stats(|l| + |WithStatus(l, TOTAL)|, |WithStatus(l, ACTIVE)|, |WithStatus(l, ARCHIVED)|,
          |WithStatus(l, DELETED)|)
  }

  /** The two agree on every ledger whose statuses are the three the system writes. */
  lemma StatsAgreeOnKnownStatuses(l: Ledger)
    requires KnownStatuses(l)
    ensures GetStatsAsWritten(l) == GetStats(l)
  {
    assert WithStatus(l, TOTAL) == {};
  }

  /** A one-entry ledger whose status reads `total` is reported with a total of two. */
  lemma StatsTotalOvercounts()
    ensures var l := map["segment00000.ts" := SegmentMeta("a.mp4", "QUEUE", 0, 2, 0, TOTAL)];
      GetStatsAsWritten(l).total == 2 && |l| == 1
  {
    var l := map["segment00000.ts" := SegmentMeta("a.mp4", "QUEUE", 0, 2, 0, TOTAL)];
    assert WithStatus(l, TOTAL) == {"segment00000.ts"};
  }

  /** One of `candidates` whose entry is newest; ties go to whichever the loop meets first. */
  method Newest(l: Ledger, candidates: set<string>) returns (n: string)
    requires candidates != {} && candidates <= l.Keys
    ensures n in candidates
    ensures forall c :: c in candidates ==> l[c].createdAt <= l[n].createdAt
  {
    n :| n in candidates;
    var rest := candidates - {n};
    while rest != {}
      invariant rest <= candidates && n in candidates
      invariant forall c :: c in candidates && c !in rest ==> l[c].createdAt <= l[n].createdAt
      decreases |rest|
    {
      var c :| c in rest;
      if l[c].createdAt > l[n].createdAt {
        n := c;
      }
      rest := rest - {c};
    }
  }

  /** The newest `active` entry, or `None` when no entry is active. */
  method GetCurrentSegment(l: Ledger) returns (r: Option<Record>)
    ensures r.None? <==> WithStatus(l, ACTIVE) == {}
    ensures r.Some? ==> r.value.0 in l && l[r.value.0] == r.value.1 && r.value.1.status == ACTIVE
    ensures r.Some? ==> forall k :: k in l && l[k].status == ACTIVE ==> l[k].createdAt <= r.value.1.createdAt
  {
    var active := WithStatus(l, ACTIVE);
    if active == {} {
      return None;
    }
    var n := Newest(l, active);
    return Some((n, l[n]));
  }

  /** The length of Python's `xs[:limit]` for a list of length `n`; a negative limit counts from the end. */
  function SliceLength(n: nat, limit: int): (k: nat)
    ensures k <= n
    ensures limit >= 0 ==> k == if limit < n then limit else n
    ensures limit < 0 ==> k == if n + limit > 0 then n + limit else 0
  {
    if limit >= 0 then (if limit < n then limit else n)
    else if n + limit > 0 then n + limit else 0
  }

  /** The names the records carry. */
  function Names(h: seq<Record>): set<string> {
    set i | 0 <= i < |h| :: h[i].0
  }

  predicate DistinctNames(h: seq<Record>) {
    forall i, j :: 0 <= i < j < |h| ==> h[i].0 != h[j].0
  }

  /** Sort key that puts newer entries first. */
  function NewestFirst(r: Record): int {
    -r.1.createdAt
  }

  /** Every entry of the ledger, one record per segment, in the order `names` gives. */
  function RecordsOf(l: Ledger, names: seq<string>): (rs: seq<Record>)
    requires forall i :: 0 <= i < |names| ==> names[i] in l
    ensures |rs| == |names|
    ensures forall i :: 0 <= i < |rs| ==> rs[i] == (names[i], l[names[i]])
  {
    seq(|names|, i requires 0 <= i < |names| => (names[i], l[names[i]]))
  }

  /** Records drawn from one ledger that are distinct as records are distinct by name. */
  lemma DistinctRecordsHaveDistinctNames(l: Ledger, h: seq<Record>)
    requires forall i :: 0 <= i < |h| ==> h[i].0 in l && l[h[i].0] == h[i].1
    requires Collections.Distinct(h)
    ensures DistinctNames(h)
  {
  }

  /** The prefix of a newest-first listing of the whole ledger keeps the newest entries. */
  lemma PrefixKeepsNewest(l: Ledger, sorted: seq<Record>, count: nat)
    requires count <= |sorted|
    requires forall k :: k in l ==> (k, l[k]) in sorted
    requires Collections.SortedBy(sorted, NewestFirst)
    ensures forall i, j :: 0 <= i < j < count ==> sorted[j].1.createdAt <= sorted[i].1.createdAt
    ensures forall k, i :: k in l && k !in Names(sorted[..count]) && 0 <= i < count ==>
      l[k].createdAt <= sorted[i].1.createdAt
  {
    var h := sorted[..count];
    forall i, j | 0 <= i < j < count ensures sorted[j].1.createdAt <= sorted[i].1.createdAt {
      assert NewestFirst(sorted[i]) <= NewestFirst(sorted[j]);
    }
    forall k, i | k in l && k !in Names(h) && 0 <= i < count ensures l[k].createdAt <= sorted[i].1.createdAt {
      var j :| 0 <= j < |sorted| && sorted[j] == (k, l[k]);
      assert NewestFirst(sorted[i]) <= NewestFirst(sorted[j]);
    }
  }

  /** Every ledger entry as a record, each exactly once, in dictionary order. */
  method Entries(l: Ledger) returns (entries: seq<Record>)
    ensures |entries| == |l|
    ensures forall k :: k in l ==> (k, l[k]) in entries
    ensures forall i :: 0 <= i < |entries| ==> entries[i].0 in l && l[entries[i].0] == entries[i].1
    ensures Collections.Distinct(entries)
  {
    var names := Collections.Enumerate(l.Keys);
    assert |l.Keys| == |l|;
    entries := RecordsOf(l, names);
    forall i, j | 0 <= i < j < |entries| ensures entries[i] != entries[j] {
      assert entries[i].0 == names[i] && entries[j].0 == names[j];
    }
    forall k | k in l ensures (k, l[k]) in entries {
      assert k in names;
      var m :| 0 <= m < |names| && names[m] == k;
      assert entries[m] == (k, l[k]);
    }
  }

  /** A newest-first listing of every ledger entry, each exactly once. */
  method ListNewestFirst(l: Ledger) returns (sorted: seq<Record>)
    ensures |sorted| == |l|
    ensures forall k :: k in l ==> (k, l[k]) in sorted
    ensures forall i :: 0 <= i < |sorted| ==> sorted[i].0 in l && l[sorted[i].0] == sorted[i].1
    ensures Collections.Distinct(sorted)
    ensures Collections.SortedBy(sorted, NewestFirst)
  {
    var entries := Entries(l);
    sorted := Collections.SortBy(entries, NewestFirst);
    PermutedEntries(l, entries, sorted);
  }

  /** A reordering of a complete, duplicate-free listing of the ledger is one too. */
  lemma PermutedEntries(l: Ledger, entries: seq<Record>, sorted: seq<Record>)
    requires multiset(entries) == multiset(sorted)
    requires Collections.Distinct(entries)
    requires forall k :: k in l ==> (k, l[k]) in entries
    requires forall i :: 0 <= i < |entries| ==> entries[i].0 in l && l[entries[i].0] == entries[i].1
    ensures forall k :: k in l ==> (k, l[k]) in sorted
    ensures forall i :: 0 <= i < |sorted| ==> sorted[i].0 in l && l[sorted[i].0] == sorted[i].1
    ensures Collections.Distinct(sorted)
  {
    Collections.PermutationKeepsElements(entries, sorted);
    forall i | 0 <= i < |sorted| ensures sorted[i].0 in l && l[sorted[i].0] == sorted[i].1 {
      assert sorted[i] in entries;
    }
  }

  /**
   The first `limit` entries (in Python's slice sense) of the ledger listed
   newest first: each record is a ledger entry, no segment appears twice, the
   list is ordered by creation time descending, and every entry left out is no
   newer than any entry listed.
   */
  method GetSegmentHistory(l: Ledger, limit: int) returns (h: seq<Record>)
    ensures |h| == SliceLength(|l|, limit)
    ensures forall i :: 0 <= i < |h| ==> h[i].0 in l && l[h[i].0] == h[i].1
    ensures DistinctNames(h)
    ensures forall i, j :: 0 <= i < j < |h| ==> h[j].1.createdAt <= h[i].1.createdAt
    ensures forall k, i :: k in l && k !in Names(h) && 0 <= i < |h| ==> l[k].createdAt <= h[i].1.createdAt
  {
    var sorted := ListNewestFirst(l);
    var count := SliceLength(|sorted|, limit);
    h := sorted[..count];
    assert forall i :: 0 <= i < |h| ==> h[i] == sorted[i];
    assert Collections.Distinct(h);
    DistinctRecordsHaveDistinctNames(l, h);
    PrefixKeepsNewest(l, sorted, count);
  }
}

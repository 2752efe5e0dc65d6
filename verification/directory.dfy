/**
 The segment directories as the lifecycle manager sees them: a map from file
 name to whether the name is a regular file and its modification time. The
 order `os.listdir` returns names in is not determined; the listing methods
 below choose one.
 */
module Directory {
  import Config
  import Text
  import Collections

  datatype Entry = Entry(isFile: bool, mtime: int)

  type Dir = map<string, Entry>

  /** A name with the segment suffix. */
  predicate HasSegmentSuffix(name: string) {
    Text.EndsWith(name, Config.SEGMENT_SUFFIX)
  }

  /** The active segments: regular files whose name ends in the segment suffix. */
  function Segments(d: Dir): set<string> {
    set n | n in d && HasSegmentSuffix(n) && d[n].isFile
  }

  /** What the trash listing reports: every name with the segment suffix, file or not. */
  function TrashNames(d: Dir): set<string> {
    set n | n in d && HasSegmentSuffix(n)
  }

  /** Sort key of a (name, modification time) pair. */
  function ByMtime(p: (string, int)): int {
    p.1
  }

  function Stamped(d: Dir, names: seq<string>): (ps: seq<(string, int)>)
    requires forall i :: 0 <= i < |names| ==> names[i] in d
    ensures |ps| == |names|
    ensures forall i :: 0 <= i < |ps| ==> ps[i] == (names[i], d[names[i]].mtime)
  {
    seq(|names|, i requires 0 <= i < |names| => (names[i], d[names[i]].mtime))
  }

  function FirstOfPairs(ps: seq<(string, int)>): (r: seq<string>)
    ensures |r| == |ps|
    ensures forall i :: 0 <= i < |r| ==> r[i] == ps[i].0
  {
    seq(|ps|, i requires 0 <= i < |ps| => ps[i].0)
  }

  /** A reordering of distinct pairs of segment names and their times keeps those properties. */
  lemma PermutedPairs(d: Dir, ps: seq<(string, int)>, sorted: seq<(string, int)>)
    requires multiset(ps) == multiset(sorted)
    requires Collections.Distinct(ps)
    requires forall i :: 0 <= i < |ps| ==> ps[i].0 in d && ps[i].1 == d[ps[i].0].mtime
    ensures Collections.Distinct(sorted)
    ensures forall p :: p in ps <==> p in sorted
    ensures forall i :: 0 <= i < |sorted| ==> sorted[i].0 in d && sorted[i].1 == d[sorted[i].0].mtime
  {
    Collections.PermutationKeepsElements(ps, sorted);
    forall i | 0 <= i < |sorted| ensures sorted[i].0 in d && sorted[i].1 == d[sorted[i].0].mtime {
      assert sorted[i] in ps;
    }
  }

  /** Pairs whose first components agree on the second have distinct first components when the pairs are distinct. */
  lemma DistinctFirsts(d: Dir, ps: seq<(string, int)>)
    requires Collections.Distinct(ps)
    requires forall i :: 0 <= i < |ps| ==> ps[i].0 in d && ps[i].1 == d[ps[i].0].mtime
    ensures Collections.Distinct(FirstOfPairs(ps))
  {
  }

  /**
   `get_active_segments`: exactly the segment files of the directory, each
   once, oldest modification time first.
   */
  method ActiveSegments(d: Dir) returns (names: seq<string>)
    ensures forall n :: n in names <==> n in Segments(d)
    ensures Collections.Distinct(names)
    ensures |names| == |Segments(d)|
    ensures forall i :: 0 <= i < |names| ==> names[i] in d
    ensures forall i, j :: 0 <= i < j < |names| ==> d[names[i]].mtime <= d[names[j]].mtime
  {
    var found := Collections.Enumerate(Segments(d));
    assert forall i :: 0 <= i < |found| ==> found[i] in Segments(d);
    var ps := Stamped(d, found);
    assert Collections.Distinct(ps) by {
      forall i, j | 0 <= i < j < |ps| ensures ps[i] != ps[j] {
        assert ps[i].0 == found[i] && ps[j].0 == found[j];
      }
    }
    var sorted := Collections.SortBy(ps, ByMtime);
    PermutedPairs(d, ps, sorted);
    DistinctFirsts(d, sorted);
    names := FirstOfPairs(sorted);
    forall n | n in Segments(d) ensures n in names {
      var m :| 0 <= m < |found| && found[m] == n;
      assert ps[m] in sorted;
      var j :| 0 <= j < |sorted| && sorted[j] == ps[m];
      assert names[j] == n;
    }
    forall i | 0 <= i < |names| ensures names[i] in Segments(d) {
      assert sorted[i] in ps;
    }
    forall i, j | 0 <= i < j < |names| ensures d[names[i]].mtime <= d[names[j]].mtime {
      assert ByMtime(sorted[i]) <= ByMtime(sorted[j]);
    }
  }

  /** `get_trash_segments`: every name in the trash with the segment suffix, each once. */
  method TrashSegments(d: Dir) returns (names: seq<string>)
    ensures forall n :: n in names <==> n in TrashNames(d)
    ensures Collections.Distinct(names)
  {
    names := Collections.Enumerate(TrashNames(d));
  }
}

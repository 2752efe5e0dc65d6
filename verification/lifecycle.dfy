/**
 The segment lifecycle manager (`TrashBinManager`): it demotes the oldest
 active segments into the trash once the active cap is exceeded, and erases
 trashed segments whose retention time has run out, keeping the ledger's
 statuses in step. File operations that raise in the source are modelled by a
 set `failing` of names whose move or removal fails; a failed operation leaves
 everything as it was.
 */
module Lifecycle {
  import Config
  import Collections
  import opened Directory
  import Ledger

  /** Both directories, the in-memory trash-time map, and the ledger. */
  datatype Bins = Bins(hls: Dir, trash: Dir, stamps: map<string, int>, ledger: Ledger.Ledger)

  /** The ledger with every known name in `names` given status `status`, and nothing else changed. */
  function MarkAll(l: Ledger.Ledger, names: set<string>, status: string): (r: Ledger.Ledger)
    ensures r.Keys == l.Keys
    ensures forall k :: k in l && k in names ==> r[k] == l[k].(status := status)
    ensures forall k :: k in l && k !in names ==> r[k] == l[k]
  {
    map k | k in l :: if k in names then l[k].(status := status) else l[k]
  }

  /**
   `move_to_trash`: when the segment exists in the active directory and its
   move does not fail, the entry leaves the active directory for the trash
   (replacing any trash entry of that name), its trash time becomes `now` and
   its ledger status `archived`. Otherwise it reports false and nothing changes.
   */
  function MoveToTrash(b: Bins, name: string, now: int, failing: set<string>): (r: (Bins, bool))
    ensures r.1 <==> name in b.hls && name !in failing
    ensures !r.1 ==> r.0 == b
    ensures r.1 ==> name !in r.0.hls && r.0.hls.Keys == b.hls.Keys - {name}
    ensures r.1 ==> name in r.0.trash && r.0.trash[name] == b.hls[name]
    ensures r.1 ==> name in r.0.stamps && r.0.stamps[name] == now
    ensures r.1 ==> r.0.ledger == Ledger.UpdateSegmentStatus(b.ledger, name, Ledger.ARCHIVED)
    ensures forall k :: k in b.hls && k != name ==> k in r.0.hls && r.0.hls[k] == b.hls[k]
    ensures forall k :: k in b.trash && k != name ==> k in r.0.trash && r.0.trash[k] == b.trash[k]
    ensures forall k :: k in b.stamps && k != name ==> k in r.0.stamps && r.0.stamps[k] == b.stamps[k]
    ensures r.1 ==> r.0.trash.Keys == b.trash.Keys + {name} && r.0.stamps.Keys == b.stamps.Keys + {name}
  {
    if name in b.hls && name !in failing then
      (Bins(b.hls - {name}, b.trash[name := b.hls[name]], b.stamps[name := now],
            Ledger.UpdateSegmentStatus(b.ledger, name, Ledger.ARCHIVED)), true)
    else (b, false)
  }

  /**
   `delete_permanently`: when the segment is a file in the trash and its removal
   does not fail, it leaves the trash, its trash time is forgotten and its
   ledger status becomes `deleted`. Otherwise (absent, a directory, or the
   removal fails) it reports false and the trash time stays.
   */
  function DeletePermanently(b: Bins, name: string, failing: set<string>): (r: (Bins, bool))
    ensures r.1 <==> name in b.trash && b.trash[name].isFile && name !in failing
    ensures !r.1 ==> r.0 == b
    ensures r.1 ==> name !in r.0.trash && name !in r.0.stamps && r.0.hls == b.hls
    ensures r.1 ==> r.0.ledger == Ledger.UpdateSegmentStatus(b.ledger, name, Ledger.DELETED)
    ensures forall k :: k in b.trash && k != name ==> k in r.0.trash && r.0.trash[k] == b.trash[k]
    ensures forall k :: k in b.stamps && k != name ==> k in r.0.stamps && r.0.stamps[k] == b.stamps[k]
    ensures r.1 ==> r.0.trash.Keys == b.trash.Keys - {name} && r.0.stamps.Keys == b.stamps.Keys - {name}
  {
    if name in b.trash && b.trash[name].isFile && name !in failing then
      (b.(trash := b.trash - {name}, stamps := b.stamps - {name},
          ledger := Ledger.UpdateSegmentStatus(b.ledger, name, Ledger.DELETED)), true)
    else (b, false)
  }

  /** Moves each name in turn, ignoring the reported outcomes, as the source's loops do. */
  function MoveAll(b: Bins, names: seq<string>, now: int, failing: set<string>): (r: Bins)
    ensures forall k :: k in r.hls ==> k in b.hls && r.hls[k] == b.hls[k]
    ensures forall k :: k in names && k !in failing ==> k !in r.hls
    ensures forall k :: k in b.hls && (k !in names || k in failing) ==> k in r.hls
    decreases |names|
  {
    if names == [] then b else MoveAll(MoveToTrash(b, names[0], now, failing).0, names[1..], now, failing)
  }

  /** Deletes each name in turn, ignoring the reported outcomes. */
  function DeleteAll(b: Bins, names: seq<string>, failing: set<string>): (r: Bins)
    ensures r.hls == b.hls
    ensures forall k :: k in r.trash ==> k in b.trash && r.trash[k] == b.trash[k]
    ensures forall k :: k in names && k in b.trash && b.trash[k].isFile && k !in failing ==> k !in r.trash
    ensures forall k :: k in b.trash && (k !in names || !b.trash[k].isFile || k in failing) ==> k in r.trash
    decreases |names|
  {
    if names == [] then b else DeleteAll(DeletePermanently(b, names[0], failing).0, names[1..], failing)
  }

  /** The names among `names` whose move succeeds. */
  function Movable(b: Bins, names: seq<string>, failing: set<string>): set<string> {
    set n | n in names && n in b.hls && n !in failing
  }

  /** The names among `names` whose removal succeeds. */
  function Deletable(b: Bins, names: seq<string>, failing: set<string>): set<string> {
    set n | n in names && n in b.trash && b.trash[n].isFile && n !in failing
  }

  /** The trash after receiving the active entries named in `moved`, each replacing any trash entry of its name. */
  function Receive(trash: Dir, hls: Dir, moved: set<string>): (r: Dir)
    requires moved <= hls.Keys
    ensures r.Keys == trash.Keys + moved
    ensures forall k :: k in moved ==> r[k] == hls[k]
    ensures forall k :: k in trash && k !in moved ==> r[k] == trash[k]
  {
    map k | k in trash.Keys + moved :: if k in moved then hls[k] else trash[k]
  }

  /** The trash-time map with every name of `moved` stamped `now`. */
  function StampAll(stamps: map<string, int>, moved: set<string>, now: int): (r: map<string, int>)
    ensures r.Keys == stamps.Keys + moved
    ensures forall k :: k in moved ==> r[k] == now
    ensures forall k :: k in stamps && k !in moved ==> r[k] == stamps[k]
  {
    map k | k in stamps.Keys + moved :: if k in moved then now else stamps[k]
  }

  /** The bins after every name of `moved` (all in the active directory) has gone to the trash at `now`. */
  function AfterMoves(b: Bins, moved: set<string>, now: int): Bins
    requires moved <= b.hls.Keys
  {
    Bins(b.hls - moved, Receive(b.trash, b.hls, moved), StampAll(b.stamps, moved, now),
         MarkAll(b.ledger, moved, Ledger.ARCHIVED))
  }

  /** The bins after every name of `gone` has been erased from the trash. */
  function AfterDeletes(b: Bins, gone: set<string>): Bins {
    b.(trash := b.trash - gone, stamps := b.stamps - gone, ledger := MarkAll(b.ledger, gone, Ledger.DELETED))
  }

  lemma MarkAllTwice(l: Ledger.Ledger, a: set<string>, c: set<string>, status: string)
    ensures MarkAll(MarkAll(l, a, status), c, status) == MarkAll(l, a + c, status)
  {
    var l1 := MarkAll(MarkAll(l, a, status), c, status);
    var l2 := MarkAll(l, a + c, status);
    assert l1.Keys == l2.Keys;
    forall k | k in l1 ensures l1[k] == l2[k] {
    }
  }

  lemma ReceiveTwice(trash: Dir, hls: Dir, a: set<string>, c: set<string>)
    requires a <= hls.Keys && c <= hls.Keys && a !! c
    ensures Receive(Receive(trash, hls, a), hls - a, c) == Receive(trash, hls, a + c)
  {
    var t1 := Receive(Receive(trash, hls, a), hls - a, c);
    var t2 := Receive(trash, hls, a + c);
    assert t1.Keys == t2.Keys;
    forall k | k in t1 ensures t1[k] == t2[k] {
    }
  }

  lemma StampAllTwice(stamps: map<string, int>, a: set<string>, c: set<string>, now: int)
    ensures StampAll(StampAll(stamps, a, now), c, now) == StampAll(stamps, a + c, now)
  {
    var s1 := StampAll(StampAll(stamps, a, now), c, now);
    var s2 := StampAll(stamps, a + c, now);
    assert s1.Keys == s2.Keys;
    forall k | k in s1 ensures s1[k] == s2[k] {
    }
  }

  lemma AfterMovesTwice(b: Bins, a: set<string>, c: set<string>, now: int)
    requires a <= b.hls.Keys && c <= b.hls.Keys && a !! c
    ensures c <= AfterMoves(b, a, now).hls.Keys
    ensures AfterMoves(AfterMoves(b, a, now), c, now) == AfterMoves(b, a + c, now)
  {
    assert b.hls - a - c == b.hls - (a + c);
    ReceiveTwice(b.trash, b.hls, a, c);
    StampAllTwice(b.stamps, a, c, now);
    MarkAllTwice(b.ledger, a, c, Ledger.ARCHIVED);
  }

  lemma AfterDeletesTwice(b: Bins, a: set<string>, c: set<string>)
    ensures AfterDeletes(AfterDeletes(b, a), c) == AfterDeletes(b, a + c)
  {
    MarkAllTwice(b.ledger, a, c, Ledger.DELETED);
    assert b.trash - a - c == b.trash - (a + c);
    assert b.stamps - a - c == b.stamps - (a + c);
  }

  /** A single successful move is the move of a one-element set. */
  lemma MoveOne(b: Bins, n: string, now: int, failing: set<string>)
    requires n in b.hls && n !in failing
    ensures MoveToTrash(b, n, now, failing).0 == AfterMoves(b, {n}, now)
  {
    var r := MoveToTrash(b, n, now, failing).0;
    var e := AfterMoves(b, {n}, now);
    assert r.trash.Keys == e.trash.Keys;
    assert r.stamps.Keys == e.stamps.Keys;
    assert r.ledger == e.ledger by {
      assert r.ledger.Keys == e.ledger.Keys;
    }
  }

  /** A single successful deletion is the deletion of a one-element set. */
  lemma DeleteOne(b: Bins, n: string, failing: set<string>)
    requires n in b.trash && b.trash[n].isFile && n !in failing
    ensures DeletePermanently(b, n, failing).0 == AfterDeletes(b, {n})
  {
    var r := DeletePermanently(b, n, failing).0;
    var e := AfterDeletes(b, {n});
    assert r.ledger == e.ledger by {
      assert r.ledger.Keys == e.ledger.Keys;
    }
  }

  /**
   Moving a list of names one by one is the same as moving, all at once, exactly
   those that were in the active directory and do not fail; names repeated or
   absent are no-ops.
   */
  lemma {:induction false} MoveAllMovesMovable(b: Bins, names: seq<string>, now: int, failing: set<string>)
    ensures Movable(b, names, failing) <= b.hls.Keys
    ensures MoveAll(b, names, now, failing) == AfterMoves(b, Movable(b, names, failing), now)
    decreases |names|
  {
    if names == [] {
      assert Movable(b, names, failing) == {};
      assert AfterMoves(b, {}, now).trash == b.trash;
      assert AfterMoves(b, {}, now).stamps == b.stamps;
      assert AfterMoves(b, {}, now).ledger == b.ledger;
    } else {
      var n, rest := names[0], names[1..];
      var b1 := MoveToTrash(b, n, now, failing).0;
      MoveAllMovesMovable(b1, rest, now, failing);
      if n in b.hls && n !in failing {
        MoveOne(b, n, now, failing);
        var m1 := Movable(b1, rest, failing);
        assert m1 == Movable(b, rest, failing) - {n};
        AfterMovesTwice(b, {n}, m1, now);
        assert Movable(b, names, failing) == {n} + m1 by {
          assert forall x :: x in names <==> x == n || x in rest;
        }
      } else {
        assert Movable(b, names, failing) == Movable(b, rest, failing) by {
          assert forall x :: x in names <==> x == n || x in rest;
        }
      }
    }
  }

  /**
   Deleting a list of names one by one is the same as erasing, all at once,
   exactly those that are files in the trash and do not fail.
   */
  lemma {:induction false} DeleteAllDeletesDeletable(b: Bins, names: seq<string>, failing: set<string>)
    ensures DeleteAll(b, names, failing) == AfterDeletes(b, Deletable(b, names, failing))
    decreases |names|
  {
    if names == [] {
      assert Deletable(b, names, failing) == {};
      assert AfterDeletes(b, {}).trash == b.trash;
      assert AfterDeletes(b, {}).stamps == b.stamps;
      assert AfterDeletes(b, {}).ledger == b.ledger;
    } else {
      var n, rest := names[0], names[1..];
      var b1 := DeletePermanently(b, n, failing).0;
      DeleteAllDeletesDeletable(b1, rest, failing);
      if n in b.trash && b.trash[n].isFile && n !in failing {
        DeleteOne(b, n, failing);
        var d1 := Deletable(b1, rest, failing);
        assert d1 == Deletable(b, rest, failing) - {n};
        AfterDeletesTwice(b, {n}, d1);
        assert Deletable(b, names, failing) == {n} + d1 by {
          assert forall x :: x in names <==> x == n || x in rest;
        }
      } else {
        assert Deletable(b, names, failing) == Deletable(b, rest, failing) by {
          assert forall x :: x in names <==> x == n || x in rest;
        }
      }
    }
  }

  /** Removing names from a directory removes exactly those names from its segments. */
  lemma SegmentsWithout(d: Dir, gone: set<string>)
    ensures Segments(d - gone) == Segments(d) - gone
  {
  }

  /** The first `cut` names of an oldest-first listing are no newer than any segment after them. */
  lemma OldestPrefix(d: Dir, active: seq<string>, cut: nat)
    requires cut <= |active|
    requires forall n :: n in active <==> n in Segments(d)
    requires forall i :: 0 <= i < |active| ==> active[i] in d
    requires forall i, j :: 0 <= i < j < |active| ==> d[active[i]].mtime <= d[active[j]].mtime
    ensures forall k :: k in Segments(d) && k !in active[..cut] ==>
      k in d && forall i :: 0 <= i < cut ==> active[i] in d && d[active[i]].mtime <= d[k].mtime
  {
    forall k | k in Segments(d) && k !in active[..cut]
      ensures k in d && forall i :: 0 <= i < cut ==> active[i] in d && d[active[i]].mtime <= d[k].mtime
    {
      var j :| 0 <= j < |active| && active[j] == k;
      assert j >= cut;
    }
  }

  /**
   Moving distinct segments `toMove` lowers the segment count by the number of
   moves that succeed: never by more than `|toMove|`, and by exactly that when
   none fails.
   */
  lemma CountAfterMoves(b: Bins, toMove: seq<string>, now: int, failing: set<string>)
    requires Collections.Distinct(toMove)
    requires forall n :: n in toMove ==> n in Segments(b.hls)
    ensures Movable(b, toMove, failing) <= b.hls.Keys
    ensures |Segments(AfterMoves(b, Movable(b, toMove, failing), now).hls)| >= |Segments(b.hls)| - |toMove|
    ensures (forall n :: n in toMove ==> n !in failing) ==>
      |Segments(AfterMoves(b, Movable(b, toMove, failing), now).hls)| == |Segments(b.hls)| - |toMove|
  {
    var moved := Movable(b, toMove, failing);
    var listed := set x | x in toMove;
    SegmentsWithout(b.hls, moved);
    assert moved <= Segments(b.hls);
    Collections.SubsetCardinality(moved, Segments(b.hls));
    assert Segments(b.hls) == (Segments(b.hls) - moved) + moved;
    assert |Segments(b.hls) - moved| == |Segments(b.hls)| - |moved|;
    Collections.DistinctCardinality(toMove);
    assert moved <= listed;
    Collections.SubsetCardinality(moved, listed);
    if forall n :: n in toMove ==> n !in failing {
      assert moved == listed;
    }
  }

  /**
   `cleanup_old_segments`: when the active directory holds more segments than
   the cap, the oldest surplus ones (`toMove`, exactly count minus cap of them)
   are moved to the trash; otherwise nothing happens. The result is what moving
   the non-failing ones gives, so the count never drops below the cap and reaches
   it exactly when no move fails.
   */
  method CleanupOldSegments(b: Bins, now: int, failing: set<string>) returns (r: Bins, toMove: seq<string>)
    ensures |Segments(b.hls)| <= Config.MAX_ACTIVE_SEGMENTS ==> r == b && toMove == []
    ensures |Segments(b.hls)| > Config.MAX_ACTIVE_SEGMENTS ==>
      |toMove| == |Segments(b.hls)| - Config.MAX_ACTIVE_SEGMENTS
    ensures Collections.Distinct(toMove)
    ensures forall n :: n in toMove ==> n in Segments(b.hls)
    ensures forall k :: k in Segments(b.hls) && k !in toMove ==>
      k in b.hls && forall i :: 0 <= i < |toMove| ==> toMove[i] in b.hls && b.hls[toMove[i]].mtime <= b.hls[k].mtime
    ensures Movable(b, toMove, failing) <= b.hls.Keys
    ensures r == AfterMoves(b, Movable(b, toMove, failing), now)
    ensures |Segments(b.hls)| > Config.MAX_ACTIVE_SEGMENTS ==>
      |Segments(r.hls)| >= Config.MAX_ACTIVE_SEGMENTS
    ensures |Segments(b.hls)| > Config.MAX_ACTIVE_SEGMENTS && (forall n :: n in toMove ==> n !in failing) ==>
      |Segments(r.hls)| == Config.MAX_ACTIVE_SEGMENTS
  {
    var active := ActiveSegments(b.hls);
    if |active| > Config.MAX_ACTIVE_SEGMENTS {
      var cut := |active| - Config.MAX_ACTIVE_SEGMENTS;
      toMove := active[..cut];
      OldestPrefix(b.hls, active, cut);
      assert Collections.Distinct(toMove) by {
        assert forall i :: 0 <= i < |toMove| ==> toMove[i] == active[i];
      }
      r := MoveAll(b, toMove, now, failing);
      MoveAllMovesMovable(b, toMove, now, failing);
      CountAfterMoves(b, toMove, now, failing);
    } else {
      toMove := [];
      r := b;
      NothingMoved(b, now, failing);
    }
  }

  lemma NothingMoved(b: Bins, now: int, failing: set<string>)
    ensures Movable(b, [], failing) == {}
    ensures AfterMoves(b, {}, now) == b
  {
    assert AfterMoves(b, {}, now).trash == b.trash;
    assert AfterMoves(b, {}, now).stamps == b.stamps;
    assert AfterMoves(b, {}, now).ledger == b.ledger;
  }

  /** A trash time has expired when strictly more than the retention time separates it from `now`. */
  predicate Expired(now: int, trashedAt: int) {
    now - trashedAt > Config.TRASH_RETENTION_TIME
  }

  /** The segments `cleanup_trash` selects: those with a recorded trash time that has expired. */
  function ExpiredNames(b: Bins, now: int): set<string> {
    set n | n in b.stamps && Expired(now, b.stamps[n])
  }

  /** The selected segments whose removal succeeds. */
  function ExpiredDeletable(b: Bins, now: int, failing: set<string>): set<string> {
    set n | n in ExpiredNames(b, now) && n in b.trash && b.trash[n].isFile && n !in failing
  }

  /**
   Expiry is strict: a segment trashed exactly the retention time ago is kept,
   one trashed a second longer ago is erased if it is a file whose removal
   succeeds, and a trash entry without a recorded trash time is never erased.
   */
  lemma ExpiryIsStrict(b: Bins, now: int, failing: set<string>, n: string)
    ensures n in b.stamps && now - b.stamps[n] == Config.TRASH_RETENTION_TIME ==> n !in ExpiredDeletable(b, now, failing)
    ensures (n in b.stamps && now - b.stamps[n] == Config.TRASH_RETENTION_TIME + 1
             && n in b.trash && b.trash[n].isFile && n !in failing) ==> n in ExpiredDeletable(b, now, failing)
    ensures n !in b.stamps ==> n !in ExpiredDeletable(b, now, failing)
  {
  }

  /** Every segment a cap enforcement moves is recorded as archived, and one it does not move keeps its entry. */
  lemma MovedAreArchived(b: Bins, moved: set<string>, now: int, n: string)
    requires moved <= b.hls.Keys && n in b.ledger
    ensures n in moved ==> AfterMoves(b, moved, now).ledger[n].status == Ledger.ARCHIVED
    ensures n !in moved ==> AfterMoves(b, moved, now).ledger[n] == b.ledger[n]
  {
  }

  /**
   `cleanup_trash`: erases exactly the selected segments that are files in the
   trash and whose removal succeeds, forgetting their trash times; the active
   directory is untouched. The ledger's `deleted` entries are pruned only when
   something was selected.
   */
  method CleanupTrash(b: Bins, now: int, failing: set<string>) returns (r: Bins)
    ensures r.hls == b.hls
    ensures r.trash == b.trash - ExpiredDeletable(b, now, failing)
    ensures r.stamps == b.stamps - ExpiredDeletable(b, now, failing)
    ensures ExpiredNames(b, now) == {} ==> r.ledger == b.ledger
    ensures ExpiredNames(b, now) != {} ==>
      r.ledger == Ledger.CleanupDeletedSegments(MarkAll(b.ledger, ExpiredDeletable(b, now, failing), Ledger.DELETED))
  {
    var selected := Collections.Enumerate(ExpiredNames(b, now));
    r := DeleteAll(b, selected, failing);
    DeleteAllDeletesDeletable(b, selected, failing);
    assert Deletable(b, selected, failing) == ExpiredDeletable(b, now, failing);
    if |selected| > 0 {
      r := r.(ledger := Ledger.CleanupDeletedSegments(r.ledger));
    } else {
      assert MarkAll(b.ledger, {}, Ledger.DELETED) == b.ledger;
    }
  }

  /** After every active segment has been offered for a move, only the failing ones remain active. */
  lemma AllMoved(b: Bins, active: seq<string>, now: int, failing: set<string>)
    requires forall n :: n in active <==> n in Segments(b.hls)
    ensures Movable(b, active, failing) <= b.hls.Keys
    ensures Segments(AfterMoves(b, Movable(b, active, failing), now).hls) == Segments(b.hls) * failing
  {
    var moved := Movable(b, active, failing);
    assert moved == Segments(b.hls) - failing;
    SegmentsWithout(b.hls, moved);
  }

  /** After every segment-named trash entry has been offered for removal, only failing files remain. */
  lemma AllDeleted(b: Bins, names: seq<string>, failing: set<string>)
    requires forall n :: n in names <==> n in TrashNames(b.trash)
    ensures var r := AfterDeletes(b, Deletable(b, names, failing));
      forall n :: n in r.trash && HasSegmentSuffix(n) && r.trash[n].isFile ==> n in failing
  {
  }

  /**
   `force_cleanup_all`: every active segment is moved to the trash, then every
   segment-named file in the trash is erased. Each move and each removal is
   tried on its own, so `moveFailing` names the segments whose move raises and
   `removeFailing` those whose removal raises. Only segments whose move fails
   stay active; a moved segment whose removal fails stays in the trash, stamped
   `now` and `archived`; every erased name loses its trash time and ends
   `deleted` in the ledger; all other entries are kept.
   */
  method ForceCleanupAll(b: Bins, now: int, moveFailing: set<string>, removeFailing: set<string>) returns (r: Bins)
    ensures Segments(r.hls) == Segments(b.hls) * moveFailing
    ensures forall n :: n in r.trash && HasSegmentSuffix(n) && r.trash[n].isFile ==> n in removeFailing
    ensures forall n :: n in r.hls ==> n in b.hls && r.hls[n] == b.hls[n]
    ensures forall n :: n in b.hls && n !in Segments(b.hls) ==> n in r.hls
    ensures r.hls == b.hls - (Segments(b.hls) - moveFailing)
    ensures var moved := Segments(b.hls) - moveFailing;
      var erased := ForceErased(b, moveFailing, removeFailing);
      r.trash == Receive(b.trash, b.hls, moved) - erased
      && r.stamps == StampAll(b.stamps, moved, now) - erased
      && r.ledger == MarkAll(MarkAll(b.ledger, moved, Ledger.ARCHIVED), erased, Ledger.DELETED)
    ensures forall n :: n in ForceErased(b, moveFailing, removeFailing) ==> n !in r.trash && n !in r.stamps
    ensures forall n :: n in b.ledger && n in ForceErased(b, moveFailing, removeFailing) ==>
      r.ledger[n] == b.ledger[n].(status := Ledger.DELETED)
    ensures forall n :: n in Segments(b.hls) && n !in moveFailing && n in removeFailing ==>
      n in r.trash && r.trash[n] == b.hls[n] && n in r.stamps && r.stamps[n] == now
      && (n in b.ledger ==> r.ledger[n] == b.ledger[n].(status := Ledger.ARCHIVED))
  {
    var active := ActiveSegments(b.hls);
    var b1 := MoveAll(b, active, now, moveFailing);
    MoveAllMovesMovable(b, active, now, moveFailing);
    AllMoved(b, active, now, moveFailing);
    var moved := Movable(b, active, moveFailing);
    assert moved == Segments(b.hls) - moveFailing;
    var trashList := TrashSegments(b1.trash);
    r := DeleteAll(b1, trashList, removeFailing);
    DeleteAllDeletesDeletable(b1, trashList, removeFailing);
    AllDeleted(b1, trashList, removeFailing);
    ForceTrashTargets(b, now, moveFailing, removeFailing, trashList);
    assert r == AfterDeletes(AfterMoves(b, moved, now), ForceErased(b, moveFailing, removeFailing));
    ForceOutcome(b, now, moveFailing, removeFailing);
  }

  /**
   What a forced cleanup erases: every active segment whose move succeeds and
   whose removal succeeds, and every segment-named file already in the trash
   whose removal succeeds.
   */
  function ForceErased(b: Bins, moveFailing: set<string>, removeFailing: set<string>): set<string> {
    (Segments(b.hls) - moveFailing - removeFailing)
    + (set n | n in TrashNames(b.trash) && b.trash[n].isFile && n !in removeFailing)
  }

  /** After the moves, the removable trash files are exactly the names a forced cleanup erases. */
  lemma ForceTrashTargets(b: Bins, now: int, moveFailing: set<string>, removeFailing: set<string>, names: seq<string>)
    requires forall n :: n in names <==> n in TrashNames(AfterMoves(b, Segments(b.hls) - moveFailing, now).trash)
    ensures Deletable(AfterMoves(b, Segments(b.hls) - moveFailing, now), names, removeFailing)
         == ForceErased(b, moveFailing, removeFailing)
  {
    var moved := Segments(b.hls) - moveFailing;
    var t := AfterMoves(b, moved, now).trash;
    forall n ensures n in Deletable(AfterMoves(b, moved, now), names, removeFailing)
                  <==> n in ForceErased(b, moveFailing, removeFailing) {
      if n in moved {
        assert t[n] == b.hls[n];
      } else if n in b.trash {
        assert t[n] == b.trash[n];
      }
    }
  }

  /**
   The forced cleanup name by name: erased names leave the trash and the stamps
   and end `deleted`; a moved segment whose removal fails is kept in the trash,
   stamped `now` and `archived`.
   */
  lemma ForceOutcome(b: Bins, now: int, moveFailing: set<string>, removeFailing: set<string>)
    ensures var erased := ForceErased(b, moveFailing, removeFailing);
      var r := AfterDeletes(AfterMoves(b, Segments(b.hls) - moveFailing, now), erased);
      (forall n :: n in erased ==> n !in r.trash && n !in r.stamps)
      && (forall n :: n in b.ledger && n in erased ==> r.ledger[n] == b.ledger[n].(status := Ledger.DELETED))
      && (forall n :: n in Segments(b.hls) && n !in moveFailing && n in removeFailing ==>
            n in r.trash && r.trash[n] == b.hls[n] && n in r.stamps && r.stamps[n] == now
            && (n in b.ledger ==> r.ledger[n] == b.ledger[n].(status := Ledger.ARCHIVED)))
  {
    var moved := Segments(b.hls) - moveFailing;
    var erased := ForceErased(b, moveFailing, removeFailing);
    var m := AfterMoves(b, moved, now);
    forall n | n in Segments(b.hls) && n !in moveFailing && n in removeFailing
      ensures n !in erased && n in m.trash && m.trash[n] == b.hls[n] && n in m.stamps && m.stamps[n] == now
    {
    }
  }
}

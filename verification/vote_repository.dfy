/**
 * The `votes` table and the JPQL queries of `VoteRepository`, over a sequence of rows
 * in insertion order. Timestamps are integers (seconds).
 */
module VoteRepository {
  import opened Seqs
  import opened StableSort

  /** One row of the votes table: the session owner, the voted track, the voting guest and when. */
  datatype Vote = Vote(owner: string, track: string, client: string, createdAt: int)

  /** One row of the grouped count query: a track and how many recent votes it has. */
  datatype TrackCount = TrackCount(track: string, count: nat)

  function ForTrack(owner: string, track: string): Vote -> bool {
    (v: Vote) => v.owner == owner && v.track == track
  }

  function NotForTrack(owner: string, track: string): Vote -> bool {
    (v: Vote) => !(v.owner == owner && v.track == track)
  }

  function CreatedFrom(threshold: int): Vote -> bool {
    (v: Vote) => v.createdAt >= threshold
  }

  /** Votes of `owner` created strictly after `since`. */
  function RecentOf(owner: string, since: int): Vote -> bool {
    (v: Vote) => v.owner == owner && v.createdAt > since
  }

  /** Votes of `owner` for `track` created strictly after `since`. */
  function RecentFor(owner: string, track: string, since: int): Vote -> bool {
    (v: Vote) => v.owner == owner && v.track == track && v.createdAt > since
  }

  /** `findByOwnerIdAndTrackId`: all and only the votes of that owner for that track. */
  function FindByOwnerAndTrack(votes: seq<Vote>, owner: string, track: string): (r: seq<Vote>)
    ensures forall v :: v in r <==> v in votes && v.owner == owner && v.track == track
  {
    FilterMembers(votes, ForTrack(owner, track));
    Filter(votes, ForTrack(owner, track))
  }

  /** `deleteVotesForTrack`: removes the votes matching both owner and track, keeps every other row. */
  function DeleteVotesForTrack(votes: seq<Vote>, owner: string, track: string): (r: seq<Vote>)
    ensures forall v :: v in r <==> v in votes && !(v.owner == owner && v.track == track)
    ensures |r| + |FindByOwnerAndTrack(votes, owner, track)| == |votes|
  {
    FilterMembers(votes, NotForTrack(owner, track));
    PartitionLength(votes, owner, track);
    Filter(votes, NotForTrack(owner, track))
  }

  lemma {:induction false} PartitionLength(votes: seq<Vote>, owner: string, track: string)
    ensures |Filter(votes, NotForTrack(owner, track))| + |Filter(votes, ForTrack(owner, track))| == |votes|
  {
    if |votes| > 0 {
      PartitionLength(votes[1..], owner, track);
    }
  }

  /** `deleteOldVotes`: removes, for every owner, the votes created strictly before `threshold`. */
  function DeleteOldVotes(votes: seq<Vote>, threshold: int): (r: seq<Vote>)
    ensures forall v :: v in r <==> v in votes && v.createdAt >= threshold
    ensures multiset(r) <= multiset(votes)
  {
    FilterMembers(votes, CreatedFrom(threshold));
    Filter(votes, CreatedFrom(threshold))
  }

  /** Deleting the same old votes twice is deleting them once. */
  lemma DeleteOldVotesIdempotent(votes: seq<Vote>, threshold: int)
    ensures DeleteOldVotes(DeleteOldVotes(votes, threshold), threshold) == DeleteOldVotes(votes, threshold)
  {
    var once := DeleteOldVotes(votes, threshold);
    FilterSatisfies(votes, CreatedFrom(threshold));
    FilterAll(once, CreatedFrom(threshold));
  }

  /** How many votes of `owner` for `track` were created strictly after `since`: `COUNT(v)` of one group. */
  function RecentCount(votes: seq<Vote>, owner: string, track: string, since: int): nat {
    |Filter(votes, RecentFor(owner, track, since))|
  }

  lemma {:induction false} RecentCountPositive(votes: seq<Vote>, owner: string, track: string, since: int)
    ensures RecentCount(votes, owner, track, since) > 0 <==>
            exists v :: v in votes && v.owner == owner && v.track == track && v.createdAt > since
  {
    FilterMembers(votes, RecentFor(owner, track, since));
    var f := Filter(votes, RecentFor(owner, track, since));
    if |f| > 0 {
      assert f[0] in f;
    }
  }

  function VoteTrack(v: Vote): string {
    v.track
  }

  /** The distinct elements of `s` in order of first occurrence. */
  function Dedup(s: seq<string>): (r: seq<string>)
    ensures Distinct(r)
    ensures forall x :: x in r <==> x in s
  {
    if |s| == 0 then []
    else
      var d := Dedup(s[..|s| - 1]);
      assert s == s[..|s| - 1] + [s[|s| - 1]];
      if s[|s| - 1] in d then d else d + [s[|s| - 1]]
  }

  function CountOf(r: TrackCount): int {
    r.count
  }

  /** One count row per distinct track, in order of first vote. */
  function CountRows(votes: seq<Vote>, owner: string, since: int, tracks: seq<string>): (r: seq<TrackCount>)
    ensures |r| == |tracks|
    ensures forall i :: 0 <= i < |r| ==> r[i] == TrackCount(tracks[i], RecentCount(votes, owner, tracks[i], since))
  {
    if |tracks| == 0 then []
    else [TrackCount(tracks[0], RecentCount(votes, owner, tracks[0], since))] + CountRows(votes, owner, since, tracks[1..])
  }

  /**
   * `findRecentVoteCounts`: one row per track the owner has votes for created strictly after `since`,
   * carrying that track's count, ordered by count descending. The query leaves the order of equal counts
   * to the database; the model keeps them in order of each track's first vote.
   */
  function FindRecentVoteCounts(votes: seq<Vote>, owner: string, since: int): (r: seq<TrackCount>)
    ensures Descending(r, CountOf)
    ensures forall i, j :: 0 <= i < j < |r| ==> r[i].track != r[j].track
    ensures forall i :: 0 <= i < |r| ==> r[i].count == RecentCount(votes, owner, r[i].track, since) && r[i].count >= 1
    ensures forall t :: RecentCount(votes, owner, t, since) >= 1 <==> exists i :: 0 <= i < |r| && r[i].track == t
  {
    var rows := CountRows(votes, owner, since, RecentTracks(votes, owner, since));
    SortedRowsFacts(votes, owner, since, rows);
    Sort(rows, CountOf)
  }

  /** The distinct tracks of the owner's recent votes, in order of first vote. */
  function RecentTracks(votes: seq<Vote>, owner: string, since: int): seq<string> {
    Dedup(Map(Filter(votes, RecentOf(owner, since)), VoteTrack))
  }

  lemma SortedRowsFacts(votes: seq<Vote>, owner: string, since: int, rows: seq<TrackCount>)
    requires rows == CountRows(votes, owner, since, RecentTracks(votes, owner, since))
    ensures var r := Sort(rows, CountOf);
      && (forall i, j :: 0 <= i < j < |r| ==> r[i].track != r[j].track)
      && (forall i :: 0 <= i < |r| ==> r[i].count == RecentCount(votes, owner, r[i].track, since) && r[i].count >= 1)
      && (forall t :: RecentCount(votes, owner, t, since) >= 1 <==> exists i :: 0 <= i < |r| && r[i].track == t)
  {
    CountRowsFacts(votes, owner, since);
    SortedRowsDistinct(votes, owner, since, rows, Sort(rows, CountOf));
    SortedRowsCounts(votes, owner, since, rows, Sort(rows, CountOf));
    SortedRowsComplete(votes, owner, since, rows, Sort(rows, CountOf));
  }

  lemma SameElements<T>(a: seq<T>, b: seq<T>)
    requires multiset(a) == multiset(b)
    ensures forall x :: x in a <==> x in b
  {
    forall x ensures x in a <==> x in b {
      assert x in a <==> x in multiset(a);
      assert x in b <==> x in multiset(b);
    }
  }

  lemma SortedRowsDistinct(votes: seq<Vote>, owner: string, since: int, rows: seq<TrackCount>, r: seq<TrackCount>)
    requires rows == CountRows(votes, owner, since, RecentTracks(votes, owner, since))
    requires r == Sort(rows, CountOf)
    ensures forall i, j :: 0 <= i < j < |r| ==> r[i].track != r[j].track
  {
    SortKeepsTracksDistinct(rows);
  }

  /** Sorting count rows with distinct tracks keeps the tracks distinct and the rows the same. */
  lemma SortKeepsTracksDistinct(rows: seq<TrackCount>)
    requires forall i, j :: 0 <= i < j < |rows| ==> rows[i].track != rows[j].track
    ensures var r := Sort(rows, CountOf);
      && (forall x :: x in r <==> x in rows)
      && (forall i, j :: 0 <= i < j < |r| ==> r[i].track != r[j].track)
  {
    var r := Sort(rows, CountOf);
    SameElements(rows, r);
    DistinctRows(rows);
    PermutationDistinct(rows, r);
    forall i, j | 0 <= i < j < |r| ensures r[i].track != r[j].track {
      assert r[i] in rows && r[j] in rows;
      var a :| 0 <= a < |rows| && rows[a] == r[i];
      var b :| 0 <= b < |rows| && rows[b] == r[j];
      assert r[i] != r[j];
      assert a != b;
    }
  }

  lemma SortedRowsCounts(votes: seq<Vote>, owner: string, since: int, rows: seq<TrackCount>, r: seq<TrackCount>)
    requires rows == CountRows(votes, owner, since, RecentTracks(votes, owner, since))
    requires r == Sort(rows, CountOf)
    requires forall t :: t in RecentTracks(votes, owner, since) <==> RecentCount(votes, owner, t, since) >= 1
    ensures forall i :: 0 <= i < |r| ==> r[i].count == RecentCount(votes, owner, r[i].track, since) && r[i].count >= 1
  {
    var tracks := RecentTracks(votes, owner, since);
    SameElements(rows, r);
    forall i | 0 <= i < |r|
      ensures r[i].count == RecentCount(votes, owner, r[i].track, since) && r[i].count >= 1
    {
      assert r[i] in rows;
      var k :| 0 <= k < |rows| && rows[k] == r[i];
      assert tracks[k] in tracks;
    }
  }

  lemma SortedRowsComplete(votes: seq<Vote>, owner: string, since: int, rows: seq<TrackCount>, r: seq<TrackCount>)
    requires rows == CountRows(votes, owner, since, RecentTracks(votes, owner, since))
    requires r == Sort(rows, CountOf)
    requires forall t :: t in RecentTracks(votes, owner, since) <==> RecentCount(votes, owner, t, since) >= 1
    ensures forall t :: RecentCount(votes, owner, t, since) >= 1 <==> exists i :: 0 <= i < |r| && r[i].track == t
  {
    var tracks := RecentTracks(votes, owner, since);
    SortedRowsCounts(votes, owner, since, rows, r);
    SameElements(rows, r);
    forall t ensures RecentCount(votes, owner, t, since) >= 1 <==> exists i :: 0 <= i < |r| && r[i].track == t {
      if RecentCount(votes, owner, t, since) >= 1 {
        assert t in tracks;
        var k :| 0 <= k < |tracks| && tracks[k] == t;
        assert rows[k] in r;
        var i :| 0 <= i < |r| && r[i] == rows[k];
        assert r[i].track == t;
      } else {
        forall i | 0 <= i < |r| ensures r[i].track != t {
          assert r[i].count == RecentCount(votes, owner, r[i].track, since) && r[i].count >= 1;
        }
      }
    }
  }

  lemma CountRowsFacts(votes: seq<Vote>, owner: string, since: int)
    ensures forall t :: t in RecentTracks(votes, owner, since) <==> RecentCount(votes, owner, t, since) >= 1
  {
    var recent := Filter(votes, RecentOf(owner, since));
    FilterMembers(votes, RecentOf(owner, since));
    forall t ensures t in Dedup(Map(recent, VoteTrack)) <==> RecentCount(votes, owner, t, since) >= 1 {
      RecentCountPositive(votes, owner, t, since);
      if t in Map(recent, VoteTrack) {
        var i :| 0 <= i < |recent| && Map(recent, VoteTrack)[i] == t;
        assert recent[i] in recent;
      }
      if RecentCount(votes, owner, t, since) >= 1 {
        var v :| v in votes && v.owner == owner && v.track == t && v.createdAt > since;
        assert v in recent;
        var i :| 0 <= i < |recent| && recent[i] == v;
        assert Map(recent, VoteTrack)[i] == t;
      }
    }
  }

  lemma DistinctRows(rows: seq<TrackCount>)
    requires forall i, j :: 0 <= i < j < |rows| ==> rows[i].track != rows[j].track
    ensures Distinct(rows)
  {
  }

  /** A permutation of a sequence without repetitions has no repetitions. */
  lemma PermutationDistinct<T>(a: seq<T>, b: seq<T>)
    requires Distinct(a)
    requires multiset(a) == multiset(b)
    ensures Distinct(b)
  {
    forall i, j | 0 <= i < j < |b| ensures b[i] != b[j] {
      if b[i] == b[j] {
        RepeatedTwice(b, i, j);
        DistinctOnce(a, b[i]);
        assert false;
      }
    }
  }

  lemma RepeatedTwice<T>(s: seq<T>, i: int, j: int)
    requires 0 <= i < j < |s| && s[i] == s[j]
    ensures multiset(s)[s[i]] >= 2
  {
    assert s == s[..j] + [s[j]] + s[j + 1..];
    assert s[i] in s[..j];
  }

  lemma {:induction false} DistinctOnce<T>(s: seq<T>, x: T)
    requires Distinct(s)
    ensures multiset(s)[x] <= 1
  {
    if |s| > 0 {
      assert s == [s[0]] + s[1..];
      assert Distinct(s[1..]);
      DistinctOnce(s[1..], x);
      if x == s[0] {
        assert x !in s[1..];
      }
    }
  }
}

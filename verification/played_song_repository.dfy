/**
 * The `played_songs` table and the queries of `PlayedSongRepository`, over a sequence
 * of rows in insertion order.
 */
module PlayedSongRepository {
  import opened Seqs
  import opened StableSort

  /** One row of the played-songs table: whose session, which track, and when it was recorded. */
  datatype PlayedSong = PlayedSong(owner: string, track: string, playedAt: int)

  /** How many rows `findLast3Songs` returns (its `LIMIT 3`). */
  const CooldownDepth: nat := 3

  function OwnedBy(owner: string): PlayedSong -> bool {
    (p: PlayedSong) => p.owner == owner
  }

  function NotPair(owner: string, track: string): PlayedSong -> bool {
    (p: PlayedSong) => !(p.owner == owner && p.track == track)
  }

  function PlayedAt(p: PlayedSong): int {
    p.playedAt
  }

  function TrackIds(rows: seq<PlayedSong>): (r: seq<string>)
    ensures |r| == |rows|
    ensures forall i :: 0 <= i < |rows| ==> r[i] == rows[i].track
  {
    if |rows| == 0 then [] else [rows[0].track] + TrackIds(rows[1..])
  }

  /**
   * The owner's rows ordered by `playedAt` descending (`ORDER BY p.playedAt DESC`). The query
   * leaves the order of equal timestamps to the database; the model puts the later-inserted row first.
   */
  function NewestFirst(rows: seq<PlayedSong>, owner: string): (r: seq<PlayedSong>)
    ensures Descending(r, PlayedAt)
    ensures multiset(r) == multiset(Filter(rows, OwnedBy(owner)))
    ensures forall p :: p in r <==> p in rows && p.owner == owner
  {
    FilterReverse(rows, OwnedBy(owner));
    ReverseMultiset(Filter(rows, OwnedBy(owner)));
    FilterMembers(rows, OwnedBy(owner));
    var r := Sort(Filter(Reverse(rows), OwnedBy(owner)), PlayedAt);
    assert forall p :: p in r <==> p in multiset(r);
    assert forall p :: p in Filter(rows, OwnedBy(owner)) <==> p in multiset(Filter(rows, OwnedBy(owner)));
    r
  }

  /** The owner's rows, newest first, are as many as the owner has rows, and each is a row of the owner. */
  lemma NewestFirstRows(rows: seq<PlayedSong>, owner: string)
    ensures |NewestFirst(rows, owner)| == |Filter(rows, OwnedBy(owner))|
    ensures forall i :: 0 <= i < |NewestFirst(rows, owner)| ==>
              exists p :: p in rows && p.owner == owner && p.track == TrackIds(NewestFirst(rows, owner))[i]
  {
    var newest := NewestFirst(rows, owner);
    assert |multiset(newest)| == |multiset(Filter(rows, OwnedBy(owner)))|;
    forall i | 0 <= i < |newest|
      ensures exists p :: p in rows && p.owner == owner && p.track == TrackIds(newest)[i]
    {
      assert newest[i] in newest;
    }
  }

  /** `findLast3Songs`: the track ids of the owner's three newest rows, newest first. */
  function FindLast3Songs(rows: seq<PlayedSong>, owner: string): (r: seq<string>)
    ensures |r| <= CooldownDepth
    ensures |r| == if |Filter(rows, OwnedBy(owner))| < CooldownDepth then |Filter(rows, OwnedBy(owner))| else CooldownDepth
    ensures forall i :: 0 <= i < |r| ==> exists p :: p in rows && p.owner == owner && p.track == r[i]
    ensures r == TrackIds(NewestFirst(rows, owner))[..|r|]
  {
    NewestFirstRows(rows, owner);
    Take(TrackIds(NewestFirst(rows, owner)), CooldownDepth)
  }

  /** `deleteByOwnerIdAndTrackId`: removes every row of that owner and track and no other row. */
  function DeleteByOwnerAndTrack(rows: seq<PlayedSong>, owner: string, track: string): (r: seq<PlayedSong>)
    ensures forall p :: p in r <==> p in rows && !(p.owner == owner && p.track == track)
  {
    FilterMembers(rows, NotPair(owner, track));
    Filter(rows, NotPair(owner, track))
  }

  /** A row no older than any of the owner's rows becomes the owner's newest. */
  lemma NewestFirstAppend(rows: seq<PlayedSong>, p: PlayedSong)
    requires forall q :: q in rows && q.owner == p.owner ==> q.playedAt <= p.playedAt
    ensures NewestFirst(rows + [p], p.owner) == [p] + NewestFirst(rows, p.owner)
  {
    var owned := OwnedBy(p.owner);
    ReverseAppend(rows, p);
    FilterCons(p, Reverse(rows), owned);
    var f := Filter(Reverse(rows), owned);
    FilterMembers(Reverse(rows), owned);
    forall i | 0 <= i < |f| ensures PlayedAt(p) >= PlayedAt(f[i]) {
      assert f[i] in f;
      var k :| 0 <= k < |rows| && Reverse(rows)[k] == f[i];
      assert rows[|rows| - 1 - k] == f[i];
    }
    SortMaximalFirst(p, f, PlayedAt);
  }

  /** Appending another owner's row leaves this owner's order alone. */
  lemma NewestFirstAppendOther(rows: seq<PlayedSong>, p: PlayedSong, owner: string)
    requires p.owner != owner
    ensures NewestFirst(rows + [p], owner) == NewestFirst(rows, owner)
  {
    ReverseAppend(rows, p);
    FilterCons(p, Reverse(rows), OwnedBy(owner));
    assert Filter(Reverse(rows + [p]), OwnedBy(owner)) == Filter(Reverse(rows), OwnedBy(owner));
    calc {
      NewestFirst(rows + [p], owner);
      Sort(Filter(Reverse(rows + [p]), OwnedBy(owner)), PlayedAt);
      Sort(Filter(Reverse(rows), OwnedBy(owner)), PlayedAt);
      NewestFirst(rows, owner);
    }
  }

  /** Deleting an owner's rows of one track removes exactly that track from the owner's newest-first order. */
  lemma NewestFirstDelete(rows: seq<PlayedSong>, owner: string, track: string)
    ensures NewestFirst(DeleteByOwnerAndTrack(rows, owner, track), owner) == Filter(NewestFirst(rows, owner), NotPair(owner, track))
  {
    var np := NotPair(owner, track);
    var owned := OwnedBy(owner);
    FilterReverse(rows, np);
    FilterCommutes(Reverse(rows), np, owned);
    SortFilter(Filter(Reverse(rows), owned), PlayedAt, np);
  }

  function NotTrack(track: string): string -> bool {
    (t: string) => t != track
  }

  /** Within one owner's rows, removing a pair is removing a track id. */
  lemma {:induction false} TrackIdsNotPair(rows: seq<PlayedSong>, owner: string, track: string)
    requires forall i :: 0 <= i < |rows| ==> rows[i].owner == owner
    ensures TrackIds(Filter(rows, NotPair(owner, track))) == Filter(TrackIds(rows), NotTrack(track))
  {
    if |rows| > 0 {
      TrackIdsNotPair(rows[1..], owner, track);
      assert TrackIds(rows) == [rows[0].track] + TrackIds(rows[1..]);
      FilterCons(rows[0].track, TrackIds(rows[1..]), NotTrack(track));
      if rows[0].track != track {
        var rest := Filter(rows[1..], NotPair(owner, track));
        assert TrackIds([rows[0]] + rest) == [rows[0].track] + TrackIds(rest) by {
          assert ([rows[0]] + rest)[1..] == rest;
        }
      }
    }
  }
}

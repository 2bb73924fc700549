/**
 * `VoteService`: vote recording with per-guest deduplication, the one-hour vote window,
 * vote reset after a track is played, active counts and ranking, and the database cooldown rows.
 * The clock is a parameter `now`; each operation is one sequential step over the stored rows.
 */
module VoteService {
  import opened Wrappers
  import opened Seqs
  import opened StableSort
  import opened VoteRepository
  import opened PlayedSongRepository

  /** The vote window: one hour, in seconds. */
  const VoteWindow: int := 3600

  /** The earliest creation time a vote may have and still count at `now`. */
  function WindowStart(now: int): int {
    now - VoteWindow
  }

  datatype VoteError = DuplicateVote

  /** A saved vote together with the vote rows after the operation. */
  datatype AddedVote = AddedVote(vote: Vote, votes: seq<Vote>)

  /** The active-vote map together with the vote rows after its cleanup. */
  datatype ActiveVotes = ActiveVotes(counts: map<string, nat>, votes: seq<Vote>)

  /** The two tables the service writes. */
  datatype Store = Store(votes: seq<Vote>, played: seq<PlayedSong>)

  /** `cleanupOldVotes`: deletes, for every owner, the votes created more than an hour before `now`. */
  function CleanupOldVotes(votes: seq<Vote>, now: int): (r: seq<Vote>)
    ensures forall v :: v in r <==> v in votes && v.createdAt >= WindowStart(now)
  {
    DeleteOldVotes(votes, WindowStart(now))
  }

  /** Cleaning up twice at the same instant is cleaning up once. */
  lemma CleanupOldVotesIdempotent(votes: seq<Vote>, now: int)
    ensures CleanupOldVotes(CleanupOldVotes(votes, now), now) == CleanupOldVotes(votes, now)
  {
    DeleteOldVotesIdempotent(votes, WindowStart(now));
  }

  /** At most one vote per owner, track and guest. */
  predicate UniqueVoters(votes: seq<Vote>) {
    forall i, j :: 0 <= i < j < |votes| ==>
      !(votes[i].owner == votes[j].owner && votes[i].track == votes[j].track && votes[i].client == votes[j].client)
  }

  /** Putting in front a vote that shares its owner, track and guest with no other keeps the votes unique. */
  lemma ConsUniqueVoters(x: Vote, rest: seq<Vote>)
    requires UniqueVoters(rest)
    requires forall v :: v in rest ==> !(x.owner == v.owner && x.track == v.track && x.client == v.client)
    ensures UniqueVoters([x] + rest)
  {
    var f := [x] + rest;
    forall i, j | 0 <= i < j < |f|
      ensures !(f[i].owner == f[j].owner && f[i].track == f[j].track && f[i].client == f[j].client)
    {
      assert f[j] == rest[j - 1];
      if i == 0 {
        assert rest[j - 1] in rest;
      } else {
        assert f[i] == rest[i - 1];
      }
    }
  }

  /** The first of unique votes shares its owner, track and guest with none of the later ones. */
  lemma HeadUniqueVoter(votes: seq<Vote>)
    requires |votes| > 0 && UniqueVoters(votes)
    ensures forall v :: v in votes[1..] ==> !(votes[0].owner == v.owner && votes[0].track == v.track && votes[0].client == v.client)
  {
    forall v | v in votes[1..]
      ensures !(votes[0].owner == v.owner && votes[0].track == v.track && votes[0].client == v.client)
    {
      var k :| 0 <= k < |votes[1..]| && votes[1..][k] == v;
      assert votes[k + 1] == v;
    }
  }

  lemma {:induction false} FilterUniqueVoters(votes: seq<Vote>, p: Vote -> bool)
    requires UniqueVoters(votes)
    ensures UniqueVoters(Filter(votes, p))
  {
    if |votes| > 0 {
      assert UniqueVoters(votes[1..]);
      FilterUniqueVoters(votes[1..], p);
      if p(votes[0]) {
        FilterMembers(votes[1..], p);
        HeadUniqueVoter(votes);
        ConsUniqueVoters(votes[0], Filter(votes[1..], p));
      }
    }
  }

  /**
   * `addVote`: purges expired votes, fails with `DuplicateVote` when the same guest still has a vote for
   * the same owner and track, and otherwise appends one vote stamped `now`. The failure is thrown inside
   * the transaction, which rolls the purge back too, so a failure leaves the rows as they were.
   */
  function AddVote(votes: seq<Vote>, owner: string, track: string, client: string, now: int): (r: Result<AddedVote, VoteError>)
    ensures r.Failure? <==>
              exists v :: v in votes && v.createdAt >= WindowStart(now) && v.owner == owner && v.track == track && v.client == client
    ensures r.Success? ==> r.value.vote == Vote(owner, track, client, now)
    ensures r.Success? ==> forall v :: v in r.value.votes <==> (v in votes && v.createdAt >= WindowStart(now)) || v == r.value.vote
    ensures r.Success? ==> r.value.votes == CleanupOldVotes(votes, now) + [r.value.vote]
  {
    var cleaned := CleanupOldVotes(votes, now);
    var matching := FindByOwnerAndTrack(cleaned, owner, track);
    if exists i :: 0 <= i < |matching| && matching[i].client == client then
      assert forall i :: 0 <= i < |matching| ==> matching[i] in matching;
      Failure(DuplicateVote)
    else
      var vote := Vote(owner, track, client, now);
      assert forall v :: (v in votes && v.createdAt >= WindowStart(now) && v.owner == owner && v.track == track && v.client == client)
                         ==> v in matching;
      Success(AddedVote(vote, cleaned + [vote]))
  }

  /** A successful vote keeps one vote per owner, track and guest. */
  lemma AddVoteKeepsUniqueVoters(votes: seq<Vote>, owner: string, track: string, client: string, now: int)
    requires UniqueVoters(votes)
    requires AddVote(votes, owner, track, client, now).Success?
    ensures UniqueVoters(AddVote(votes, owner, track, client, now).value.votes)
  {
    var cleaned := CleanupOldVotes(votes, now);
    FilterUniqueVoters(votes, CreatedFrom(WindowStart(now)));
    UniqueAfterAppend(cleaned, Vote(owner, track, client, now));
  }

  lemma UniqueAfterAppend(votes: seq<Vote>, vote: Vote)
    requires UniqueVoters(votes)
    requires forall v :: v in votes ==> !(v.owner == vote.owner && v.track == vote.track && v.client == vote.client)
    ensures UniqueVoters(votes + [vote])
  {
    var r := votes + [vote];
    forall i, j | 0 <= i < j < |r|
      ensures !(r[i].owner == r[j].owner && r[i].track == r[j].track && r[i].client == r[j].client)
    {
      if j == |votes| {
        assert r[i] in votes;
      }
    }
  }

  /** A guest's second vote for the same track within the window is rejected. */
  lemma SecondVoteRejected(votes: seq<Vote>, owner: string, track: string, client: string, first: int, second: int)
    requires AddVote(votes, owner, track, client, first).Success?
    requires second - VoteWindow <= first
    ensures AddVote(AddVote(votes, owner, track, client, first).value.votes, owner, track, client, second).Failure?
  {
    var added := AddVote(votes, owner, track, client, first).value;
    assert added.vote in added.votes;
  }

  /**
   * `resetVotesForPlayedTrack`: deletes every vote of that owner for that track, keeps all other votes,
   * and records the track as played at `now`.
   */
  function ResetVotesForPlayedTrack(store: Store, owner: string, track: string, now: int): (r: Store)
    ensures forall v :: v in r.votes <==> v in store.votes && !(v.owner == owner && v.track == track)
    ensures |r.played| == |store.played| + 1 && r.played[..|store.played|] == store.played
    ensures r.played[|store.played|] == PlayedSong(owner, track, now)
  {
    Store(DeleteVotesForTrack(store.votes, owner, track), store.played + [PlayedSong(owner, track, now)])
  }

  /** The track whose votes were reset has no active votes left. */
  lemma ResetClearsCount(store: Store, owner: string, track: string, now: int, since: int)
    ensures RecentCount(ResetVotesForPlayedTrack(store, owner, track, now).votes, owner, track, since) == 0
  {
    var votes := ResetVotesForPlayedTrack(store, owner, track, now).votes;
    RecentCountPositive(votes, owner, track, since);
  }

  /** The `put` loop of `getActiveVotes`: each row's track mapped to its count. */
  function RowsToMap(rows: seq<TrackCount>): (m: map<string, nat>)
    ensures forall t :: t in m <==> exists i :: 0 <= i < |rows| && rows[i].track == t
    ensures forall t :: t in m ==> exists i :: 0 <= i < |rows| && rows[i].track == t && rows[i].count == m[t]
  {
    if |rows| == 0 then map[]
    else
      var init := rows[..|rows| - 1];
      var m := RowsToMap(init);
      assert forall i :: 0 <= i < |init| ==> init[i] == rows[i];
      m[rows[|rows| - 1].track := rows[|rows| - 1].count]
  }

  /** Votes the cleanup deletes are never counted, so the cleanup does not change any count. */
  lemma CleanupKeepsCounts(votes: seq<Vote>, owner: string, track: string, now: int)
    ensures RecentCount(CleanupOldVotes(votes, now), owner, track, WindowStart(now)) == RecentCount(votes, owner, track, WindowStart(now))
  {
    FilterImplied(votes, CreatedFrom(WindowStart(now)), RecentFor(owner, track, WindowStart(now)));
  }

  /**
   * `getActiveVotes`: purges expired votes, then maps every track to the number of the owner's votes
   * created strictly within the last hour; only tracks with at least one such vote are keys.
   */
  function GetActiveVotes(votes: seq<Vote>, owner: string, now: int): (r: ActiveVotes)
    ensures r.votes == CleanupOldVotes(votes, now)
    ensures forall t :: t in r.counts <==> RecentCount(votes, owner, t, WindowStart(now)) >= 1
    ensures forall t :: t in r.counts ==> r.counts[t] == RecentCount(votes, owner, t, WindowStart(now))
  {
    var cleaned := CleanupOldVotes(votes, now);
    var rows := FindRecentVoteCounts(cleaned, owner, WindowStart(now));
    var counts := RowsToMap(rows);
    assert forall t :: RecentCount(cleaned, owner, t, WindowStart(now)) == RecentCount(votes, owner, t, WindowStart(now)) by {
      forall t ensures RecentCount(cleaned, owner, t, WindowStart(now)) == RecentCount(votes, owner, t, WindowStart(now)) {
        CleanupKeepsCounts(votes, owner, t, now);
      }
    }
    ActiveVotes(counts, cleaned)
  }

  /** After a reset the played track is not among the active votes. */
  lemma ResetRemovesActiveVotes(store: Store, owner: string, track: string, now: int, later: int)
    ensures track !in GetActiveVotes(ResetVotesForPlayedTrack(store, owner, track, now).votes, owner, later).counts
  {
    ResetClearsCount(store, owner, track, now, later - VoteWindow);
  }

  /**
   * `getRankedTracks`: the entries of the active-vote map, in whatever order the map yields them,
   * sorted by count descending.
   */
  method GetRankedTracks(votes: seq<Vote>, owner: string, now: int) returns (ranked: seq<TrackCount>, purged: seq<Vote>)
    ensures purged == CleanupOldVotes(votes, now)
    ensures Descending(ranked, CountOf)
    ensures forall i, j :: 0 <= i < j < |ranked| ==> ranked[i].track != ranked[j].track
    ensures forall i :: 0 <= i < |ranked| ==> ranked[i].count == RecentCount(votes, owner, ranked[i].track, WindowStart(now))
    ensures forall t :: RecentCount(votes, owner, t, WindowStart(now)) >= 1 <==> exists i :: 0 <= i < |ranked| && ranked[i].track == t
  {
    var active := GetActiveVotes(votes, owner, now);
    purged := active.votes;
    var entries := MapEntries(active.counts);
    ranked := Sort(entries, CountOf);
    RankedEntries(active.counts, entries, ranked);
  }

  /** `entrySet().stream()`: the entries of a map, each once, in an order the map chooses. */
  method MapEntries(counts: map<string, nat>) returns (entries: seq<TrackCount>)
    ensures forall i :: 0 <= i < |entries| ==> entries[i].track in counts && entries[i].count == counts[entries[i].track]
    ensures forall t :: t in counts ==> exists i :: 0 <= i < |entries| && entries[i].track == t
    ensures forall i, j :: 0 <= i < j < |entries| ==> entries[i].track != entries[j].track
  {
    entries := [];
    var remaining := counts.Keys;
    while remaining != {}
      invariant remaining <= counts.Keys
      invariant forall i :: 0 <= i < |entries| ==>
        entries[i].track in counts && entries[i].track !in remaining && entries[i].count == counts[entries[i].track]
      invariant forall t :: t in counts ==> t in remaining || exists i :: 0 <= i < |entries| && entries[i].track == t
      invariant forall i, j :: 0 <= i < j < |entries| ==> entries[i].track != entries[j].track
      decreases remaining
    {
      var t :| t in remaining;
      var before := entries;
      entries := entries + [TrackCount(t, counts[t])];
      remaining := remaining - {t};
      forall u | u in counts && u !in remaining
        ensures exists i :: 0 <= i < |entries| && entries[i].track == u
      {
        if u == t {
          assert entries[|before|].track == u;
        } else {
          var i :| 0 <= i < |before| && before[i].track == u;
          assert entries[i].track == u;
        }
      }
    }
  }

  /** Sorting the drained map entries keeps exactly the map's entries, each once. */
  lemma RankedEntries(counts: map<string, nat>, entries: seq<TrackCount>, ranked: seq<TrackCount>)
    requires forall i :: 0 <= i < |entries| ==> entries[i].track in counts && entries[i].count == counts[entries[i].track]
    requires forall t :: t in counts ==> exists i :: 0 <= i < |entries| && entries[i].track == t
    requires forall i, j :: 0 <= i < j < |entries| ==> entries[i].track != entries[j].track
    requires ranked == Sort(entries, CountOf)
    ensures forall i, j :: 0 <= i < j < |ranked| ==> ranked[i].track != ranked[j].track
    ensures forall i :: 0 <= i < |ranked| ==> ranked[i].track in counts && ranked[i].count == counts[ranked[i].track]
    ensures forall t :: t in counts <==> exists i :: 0 <= i < |ranked| && ranked[i].track == t
  {
    SortKeepsTracksDistinct(entries);
    forall t | t in counts ensures exists i :: 0 <= i < |ranked| && ranked[i].track == t {
      var k :| 0 <= k < |entries| && entries[k].track == t;
      assert entries[k] in ranked;
    }
    forall i | 0 <= i < |ranked| ensures ranked[i].track in counts && ranked[i].count == counts[ranked[i].track] {
      assert ranked[i] in entries;
    }
  }

  /**
   * The owner's cooldown rows after `track` is reported played, with the eviction the source performs:
   * when three rows were already recent it deletes every row of `recent[0]`, which the descending query
   * makes the NEWEST of the three, although the code's comment calls it the oldest.
   */
  function AddPlayedSongAsWritten(played: seq<PlayedSong>, owner: string, track: string, now: int): (r: seq<PlayedSong>)
    ensures track in FindLast3Songs(played, owner) ==> r == played
    ensures track !in FindLast3Songs(played, owner) ==> PlayedSong(owner, track, now) in r
    ensures var recent := FindLast3Songs(played, owner);
      track !in recent && |recent| < CooldownDepth ==> r == played + [PlayedSong(owner, track, now)]
    ensures var recent := FindLast3Songs(played, owner);
      track !in recent && |recent| == CooldownDepth ==>
        forall p :: p in r <==> p in played + [PlayedSong(owner, track, now)] && !(p.owner == owner && p.track == recent[0])
    ensures forall p: PlayedSong :: p.owner != owner ==> (p in r <==> p in played)
  {
    var recent := FindLast3Songs(played, owner);
    if track in recent then played
    else
      var saved := played + [PlayedSong(owner, track, now)];
      if |recent| >= CooldownDepth then DeleteByOwnerAndTrack(saved, owner, recent[0]) else saved
  }

  /**
   * `addPlayedSong` with the eviction its comment describes: a track already among the owner's three
   * newest is not added again; otherwise a row stamped `now` is appended and, when three rows were
   * already recent, every row of the oldest of them is deleted.
   */
  function AddPlayedSong(played: seq<PlayedSong>, owner: string, track: string, now: int): (r: seq<PlayedSong>)
    ensures track in FindLast3Songs(played, owner) ==> r == played
    ensures track !in FindLast3Songs(played, owner) ==> PlayedSong(owner, track, now) in r
    ensures var recent := FindLast3Songs(played, owner);
      track !in recent && |recent| < CooldownDepth ==> r == played + [PlayedSong(owner, track, now)]
    ensures var recent := FindLast3Songs(played, owner);
      track !in recent && |recent| == CooldownDepth ==>
        forall p :: p in r <==> p in played + [PlayedSong(owner, track, now)] && !(p.owner == owner && p.track == recent[2])
    ensures forall p: PlayedSong :: p.owner != owner ==> (p in r <==> p in played)
  {
    var recent := FindLast3Songs(played, owner);
    if track in recent then played
    else
      var saved := played + [PlayedSong(owner, track, now)];
      if |recent| >= CooldownDepth then DeleteByOwnerAndTrack(saved, owner, recent[|recent| - 1]) else saved
  }

  /** Deleting another track's rows commutes with appending a row. */
  lemma DeleteAfterAppend(played: seq<PlayedSong>, row: PlayedSong, owner: string, evicted: string)
    requires row.track != evicted
    ensures DeleteByOwnerAndTrack(played + [row], owner, evicted) == DeleteByOwnerAndTrack(played, owner, evicted) + [row]
  {
    var np := NotPair(owner, evicted);
    FilterConcat(played, [row], np);
    FilterCons(row, [], np);
    assert [row] + [] == [row];
  }

  /** The ids of the owner's rows, newest first, after deleting one track's rows. */
  lemma IdsAfterDelete(played: seq<PlayedSong>, owner: string, evicted: string)
    ensures TrackIds(NewestFirst(DeleteByOwnerAndTrack(played, owner, evicted), owner))
              == Filter(TrackIds(NewestFirst(played, owner)), NotTrack(evicted))
  {
    NewestFirstDelete(played, owner, evicted);
    var newest := NewestFirst(played, owner);
    assert forall i :: 0 <= i < |newest| ==> newest[i] in newest;
    TrackIdsNotPair(newest, owner, evicted);
  }

  /** The ids of the owner's rows, newest first, after appending the owner's newest row. */
  lemma IdsAfterAppend(played: seq<PlayedSong>, row: PlayedSong)
    requires forall p :: p in played && p.owner == row.owner ==> p.playedAt <= row.playedAt
    ensures TrackIds(NewestFirst(played + [row], row.owner)) == [row.track] + TrackIds(NewestFirst(played, row.owner))
  {
    NewestFirstAppend(played, row);
    var newest := NewestFirst(played, row.owner);
    assert TrackIds([row] + newest) == [row.track] + TrackIds(newest);
  }

  /** The cooldown window after appending `track` and evicting the rows of `evicted`. */
  lemma WindowAfterAdd(played: seq<PlayedSong>, owner: string, track: string, now: int, evicted: string)
    requires forall p :: p in played && p.owner == owner ==> p.playedAt <= now
    requires track != evicted
    ensures FindLast3Songs(DeleteByOwnerAndTrack(played + [PlayedSong(owner, track, now)], owner, evicted), owner)
              == Take([track] + Filter(TrackIds(NewestFirst(played, owner)), NotTrack(evicted)), CooldownDepth)
  {
    var row := PlayedSong(owner, track, now);
    var kept := DeleteByOwnerAndTrack(played, owner, evicted);
    DeleteAfterAppend(played, row, owner, evicted);
    IdsAfterAppend(kept, row);
    IdsAfterDelete(played, owner, evicted);
  }

  /** The cooldown window when no eviction happens. */
  lemma WindowAfterAppend(played: seq<PlayedSong>, owner: string, track: string, now: int)
    requires forall p :: p in played && p.owner == owner ==> p.playedAt <= now
    requires |FindLast3Songs(played, owner)| < CooldownDepth
    ensures FindLast3Songs(played + [PlayedSong(owner, track, now)], owner) == [track] + FindLast3Songs(played, owner)
  {
    IdsAfterAppend(played, PlayedSong(owner, track, now));
  }

  /**
   * The intended cooldown behaviour: reporting a track that is not in the window makes the window that
   * track followed by the previous window, the oldest entry falling out.
   */
  lemma AddPlayedSongShiftsWindow(played: seq<PlayedSong>, owner: string, track: string, now: int)
    requires forall p :: p in played && p.owner == owner ==> p.playedAt <= now
    requires track !in FindLast3Songs(played, owner)
    requires Distinct(FindLast3Songs(played, owner))
    ensures FindLast3Songs(AddPlayedSong(played, owner, track, now), owner)
              == Take([track] + FindLast3Songs(played, owner), CooldownDepth)
  {
    var recent := FindLast3Songs(played, owner);
    if |recent| < CooldownDepth {
      WindowAfterAppend(played, owner, track, now);
    } else {
      var ids := TrackIds(NewestFirst(played, owner));
      var row := PlayedSong(owner, track, now);
      assert AddPlayedSong(played, owner, track, now) == DeleteByOwnerAndTrack(played + [row], owner, recent[2]);
      WindowAfterAdd(played, owner, track, now, recent[2]);
      ShiftedWindow(track, ids, recent);
    }
  }

  /**
   * The cooldown window after `addPlayedSong`, for every window, repeated tracks included: the new
   * track in front of the previous ids with every id of the evicted track removed.
   */
  lemma AddPlayedSongWindow(played: seq<PlayedSong>, owner: string, track: string, now: int)
    requires forall p :: p in played && p.owner == owner ==> p.playedAt <= now
    requires track !in FindLast3Songs(played, owner)
    ensures var recent := FindLast3Songs(played, owner);
      FindLast3Songs(AddPlayedSong(played, owner, track, now), owner)
        == if |recent| < CooldownDepth then [track] + recent
           else Take([track] + Filter(TrackIds(NewestFirst(played, owner)), NotTrack(recent[2])), CooldownDepth)
  {
    var recent := FindLast3Songs(played, owner);
    if |recent| < CooldownDepth {
      WindowAfterAppend(played, owner, track, now);
    } else {
      var row := PlayedSong(owner, track, now);
      assert AddPlayedSong(played, owner, track, now) == DeleteByOwnerAndTrack(played + [row], owner, recent[2]);
      WindowAfterAdd(played, owner, track, now, recent[2]);
    }
  }

  /** The cooldown window after the source's `addPlayedSong`, for every window: the newest id's rows are the ones removed. */
  lemma AddPlayedSongAsWrittenWindow(played: seq<PlayedSong>, owner: string, track: string, now: int)
    requires forall p :: p in played && p.owner == owner ==> p.playedAt <= now
    requires track !in FindLast3Songs(played, owner)
    ensures var recent := FindLast3Songs(played, owner);
      FindLast3Songs(AddPlayedSongAsWritten(played, owner, track, now), owner)
        == if |recent| < CooldownDepth then [track] + recent
           else Take([track] + Filter(TrackIds(NewestFirst(played, owner)), NotTrack(recent[0])), CooldownDepth)
  {
    var recent := FindLast3Songs(played, owner);
    if |recent| < CooldownDepth {
      WindowAfterAppend(played, owner, track, now);
    } else {
      var row := PlayedSong(owner, track, now);
      assert AddPlayedSongAsWritten(played, owner, track, now) == DeleteByOwnerAndTrack(played + [row], owner, recent[0]);
      WindowAfterAdd(played, owner, track, now, recent[0]);
    }
  }

  /**
   * A window that repeats its newest track as its oldest, `[x, y, x]` (reachable, since a reset appends a
   * played row without looking at the window): deleting every row of `x` takes its newer copy out too,
   * so `y` moves up behind the new track instead of `x`, and the window is not the shifted one.
   */
  lemma AddPlayedSongRepeatedWindow(played: seq<PlayedSong>, owner: string, track: string, now: int)
    requires forall p :: p in played && p.owner == owner ==> p.playedAt <= now
    requires track !in FindLast3Songs(played, owner)
    requires |FindLast3Songs(played, owner)| == CooldownDepth
    requires FindLast3Songs(played, owner)[0] == FindLast3Songs(played, owner)[2] != FindLast3Songs(played, owner)[1]
    ensures var recent := FindLast3Songs(played, owner);
      var w := FindLast3Songs(AddPlayedSong(played, owner, track, now), owner);
      && |w| >= 2 && w[0] == track && w[1] == recent[1]
      && w != Take([track] + recent, CooldownDepth)
  {
    var recent := FindLast3Songs(played, owner);
    var ids := TrackIds(NewestFirst(played, owner));
    AddPlayedSongWindow(played, owner, track, now);
    var x, y := recent[0], recent[1];
    var f := Filter(ids, NotTrack(x));
    assert f[0] == y by {
      assert ids == [x] + ([y] + ids[2..]);
      FilterCons(x, [y] + ids[2..], NotTrack(x));
      FilterCons(y, ids[2..], NotTrack(x));
    }
    TakeCons(track, f, 2);
    TakeCons(track, recent, 2);
  }

  /** The window of ids after `track` is put in front and the oldest or the newest recent id is removed. */
  lemma ShiftedWindow(track: string, ids: seq<string>, recent: seq<string>)
    requires |recent| == 3 && |ids| >= 3 && recent == ids[..3] && Distinct(recent)
    ensures Take([track] + Filter(ids, NotTrack(recent[2])), CooldownDepth) == Take([track] + recent, CooldownDepth)
    ensures Take([track] + Filter(ids, NotTrack(recent[0])), CooldownDepth) == [track, recent[1], recent[2]]
    ensures [track, recent[1], recent[2]] != Take([track] + recent, CooldownDepth)
  {
    assert recent[0] != recent[1] && recent[0] != recent[2] && recent[1] != recent[2];
    TakeTwoAfterRemoving(ids, recent[2]);
    TakeTwoAfterRemoving(ids, recent[0]);
    TakeCons(track, Filter(ids, NotTrack(recent[2])), 2);
    TakeCons(track, Filter(ids, NotTrack(recent[0])), 2);
    TakeCons(track, recent, 2);
    assert [track] + recent[1..] == [track, recent[1], recent[2]];
    assert ([track] + Take(recent, 2))[1] == recent[0];
  }

  /** The first two ids that survive removing `gone` from a sequence with three leading ids. */
  lemma {:induction false} TakeTwoAfterRemoving(ids: seq<string>, gone: string)
    requires |ids| >= 3 && (ids[2] == gone || ids[0] == gone)
    requires |ids| >= 3 && ids[0] != ids[1] && ids[0] != ids[2] && ids[1] != ids[2]
    ensures ids[2] == gone ==> Take(Filter(ids, NotTrack(gone)), 2) == ids[..2]
    ensures ids[0] == gone ==> Take(Filter(ids, NotTrack(gone)), 2) == ids[1..3]
  {
    var x, y, z, rest := ids[0], ids[1], ids[2], ids[3..];
    var keep := NotTrack(gone);
    assert ids == [x] + ([y] + ([z] + rest));
    FilterCons(z, rest, keep);
    FilterCons(y, [z] + rest, keep);
    FilterCons(x, [y] + ([z] + rest), keep);
    var f := Filter(ids, keep);
    if z == gone {
      assert f == [x] + ([y] + Filter(rest, keep));
      assert f[0] == x && f[1] == y;
    } else {
      assert f == [y] + ([z] + Filter(rest, keep));
      assert f[0] == y && f[1] == z;
    }
  }

  /**
   * What the source does instead: the newest of the three recent tracks leaves the window at once,
   * and the oldest stays.
   */
  lemma AddPlayedSongAsWrittenDropsNewest(played: seq<PlayedSong>, owner: string, track: string, now: int)
    requires forall p :: p in played && p.owner == owner ==> p.playedAt <= now
    requires track !in FindLast3Songs(played, owner)
    requires Distinct(FindLast3Songs(played, owner))
    requires |FindLast3Songs(played, owner)| == CooldownDepth
    ensures var recent := FindLast3Songs(played, owner);
      && FindLast3Songs(AddPlayedSongAsWritten(played, owner, track, now), owner) == [track, recent[1], recent[2]]
      && FindLast3Songs(AddPlayedSongAsWritten(played, owner, track, now), owner) != Take([track] + recent, CooldownDepth)
  {
    var recent := FindLast3Songs(played, owner);
    var ids := TrackIds(NewestFirst(played, owner));
    var row := PlayedSong(owner, track, now);
    assert AddPlayedSongAsWritten(played, owner, track, now) == DeleteByOwnerAndTrack(played + [row], owner, recent[0]);
    WindowAfterAdd(played, owner, track, now, recent[0]);
    ShiftedWindow(track, ids, recent);
  }
}

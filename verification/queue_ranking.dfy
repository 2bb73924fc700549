/**
 * The queue side of `SpotifyService`: ranking the Spotify queue for display, choosing the track to
 * enqueue next, listing upcoming tracks with their votes, and finding the active device.
 * Vote counts here are looked up by the raw track id, without the normalization the playlist
 * reorder applies.
 */
module QueueRanking {
  import opened Wrappers
  import opened Seqs
  import opened StableSort
  import opened Reorder

  /** `votes.getOrDefault(id, 0L)`; a null id is never a key of the vote map. */
  function LookupVotes(votes: map<string, nat>, id: Option<string>): (n: nat)
    ensures id.Some? && id.value in votes ==> n == votes[id.value]
    ensures id.None? || id.value !in votes ==> n == 0
  {
    if id.Some? && id.value in votes then votes[id.value] else 0
  }

  /** A queue entry: its `id`, which may be null, and the `votes` field the ranking adds. */
  datatype QueueEntry = QueueEntry(id: Option<string>, votes: nat)

  function Annotate(ids: seq<Option<string>>, votes: map<string, nat>): (r: seq<QueueEntry>)
    ensures |r| == |ids|
    ensures forall i :: 0 <= i < |ids| ==> r[i] == QueueEntry(ids[i], LookupVotes(votes, ids[i]))
  {
    if |ids| == 0 then [] else [QueueEntry(ids[0], LookupVotes(votes, ids[0]))] + Annotate(ids[1..], votes)
  }

  function EntryVotes(e: QueueEntry): int {
    e.votes
  }

  /** `cooldown.contains(id)`; a null id is never in cooldown. */
  predicate Cooled(cooldown: seq<string>, e: QueueEntry) {
    e.id.Some? && e.id.value in cooldown
  }

  function IsCooled(cooldown: seq<string>): QueueEntry -> bool {
    (e: QueueEntry) => Cooled(cooldown, e)
  }

  function IsFresh(cooldown: seq<string>): QueueEntry -> bool {
    (e: QueueEntry) => !Cooled(cooldown, e)
  }

  /** The cooldown comparator as a descending key: entries out of cooldown first. */
  function FreshKey(cooldown: seq<string>): QueueEntry -> int {
    (e: QueueEntry) => if Cooled(cooldown, e) then 0 else 1
  }

  /**
   * `getQueue`: the queue annotated with votes, sorted by votes descending and then, stably, with the
   * cooldown tracks moved to the bottom.
   */
  function GetQueue(ids: seq<Option<string>>, votes: map<string, nat>, cooldown: seq<string>): (r: seq<QueueEntry>)
    ensures multiset(r) == multiset(Annotate(ids, votes))
    ensures forall i, j :: 0 <= i < j < |r| && Cooled(cooldown, r[i]) ==> Cooled(cooldown, r[j])
  {
    var r := Sort(Sort(Annotate(ids, votes), EntryVotes), FreshKey(cooldown));
    assert Descending(r, FreshKey(cooldown));
    r
  }

  /** Within the fresh group and within the cooldown group, entries are in vote order, ties in queue order. */
  lemma GetQueueGroups(ids: seq<Option<string>>, votes: map<string, nat>, cooldown: seq<string>)
    ensures var r, a := GetQueue(ids, votes, cooldown), Annotate(ids, votes);
      && Filter(r, IsFresh(cooldown)) == Sort(Filter(a, IsFresh(cooldown)), EntryVotes)
      && Filter(r, IsCooled(cooldown)) == Sort(Filter(a, IsCooled(cooldown)), EntryVotes)
      && Descending(Filter(r, IsFresh(cooldown)), EntryVotes)
      && Descending(Filter(r, IsCooled(cooldown)), EntryVotes)
  {
    var a := Annotate(ids, votes);
    var r := GetQueue(ids, votes, cooldown);
    var key := FreshKey(cooldown);
    SortThenGroup(a, EntryVotes, key, 1);
    SortThenGroup(a, EntryVotes, key, 0);
    FilterSame(r, IsFresh(cooldown), HasKey(key, 1));
    FilterSame(a, IsFresh(cooldown), HasKey(key, 1));
    FilterSame(r, IsCooled(cooldown), HasKey(key, 0));
    FilterSame(a, IsCooled(cooldown), HasKey(key, 0));
  }

  /** Among the entries of one group with equal votes, queue order is kept. */
  lemma GetQueueStable(ids: seq<Option<string>>, votes: map<string, nat>, cooldown: seq<string>, k: int)
    ensures var r, a := GetQueue(ids, votes, cooldown), Annotate(ids, votes);
      && Filter(Filter(r, IsFresh(cooldown)), HasKey(EntryVotes, k)) == Filter(Filter(a, IsFresh(cooldown)), HasKey(EntryVotes, k))
      && Filter(Filter(r, IsCooled(cooldown)), HasKey(EntryVotes, k)) == Filter(Filter(a, IsCooled(cooldown)), HasKey(EntryVotes, k))
  {
    var a := Annotate(ids, votes);
    GetQueueGroups(ids, votes, cooldown);
    SortStable(Filter(a, IsFresh(cooldown)), EntryVotes, k);
    SortStable(Filter(a, IsCooled(cooldown)), EntryVotes, k);
  }

  /** The id of the playing item; a response without an item gives null. */
  function CurrentId(nowPlaying: NowPlaying): Option<string> {
    if nowPlaying.Item? then nowPlaying.id else None
  }

  /** A track `reorderQueueByVotes` may enqueue: it has an id, is not playing and is not in cooldown. */
  predicate Votable(current: Option<string>, cooldown: seq<string>, t: Track) {
    t.id.Some? && t.id != current && t.id.value !in cooldown
  }

  /**
   * `votable.stream().max(...)`: the index of the first votable track with the most votes, or -1 when
   * no track is votable. `Stream.max` keeps the earlier of two equal elements.
   */
  method TopVoted(tracks: seq<Track>, current: Option<string>, cooldown: seq<string>, votes: map<string, nat>)
    returns (best: int)
    ensures -1 <= best < |tracks|
    ensures best == -1 <==> forall i :: 0 <= i < |tracks| ==> !Votable(current, cooldown, tracks[i])
    ensures best >= 0 ==> Votable(current, cooldown, tracks[best])
    ensures best >= 0 ==> forall i :: 0 <= i < |tracks| && Votable(current, cooldown, tracks[i]) ==>
              LookupVotes(votes, tracks[i].id) <= LookupVotes(votes, tracks[best].id)
    ensures best >= 0 ==> forall i :: 0 <= i < best && Votable(current, cooldown, tracks[i]) ==>
              LookupVotes(votes, tracks[i].id) < LookupVotes(votes, tracks[best].id)
  {
    best := -1;
    var i := 0;
    while i < |tracks|
      invariant 0 <= i <= |tracks|
      invariant -1 <= best < i
      invariant best == -1 <==> forall j :: 0 <= j < i ==> !Votable(current, cooldown, tracks[j])
      invariant best >= 0 ==> Votable(current, cooldown, tracks[best])
      invariant best >= 0 ==> forall j :: 0 <= j < i && Votable(current, cooldown, tracks[j]) ==>
                  LookupVotes(votes, tracks[j].id) <= LookupVotes(votes, tracks[best].id)
      invariant best >= 0 ==> forall j :: 0 <= j < best && Votable(current, cooldown, tracks[j]) ==>
                  LookupVotes(votes, tracks[j].id) < LookupVotes(votes, tracks[best].id)
    {
      if Votable(current, cooldown, tracks[i]) {
        if best == -1 || LookupVotes(votes, tracks[best].id) < LookupVotes(votes, tracks[i].id) {
          best := i;
        }
      }
      i := i + 1;
    }
  }

  /**
   * `reorderQueueByVotes`: the id of the track added to the playback queue, or `None`. Nothing is
   * added without a playlist, on a null `item`, for an empty playlist, when no track is votable, or
   * when the best votable track has no votes; otherwise the first votable track with the most votes
   * is added.
   */
  method ReorderQueueByVotes(playlistId: Option<string>, nowPlaying: NowPlaying, tracks: seq<Track>,
                             votes: map<string, nat>, cooldown: seq<string>) returns (added: Option<string>)
    ensures NoPlaylist(playlistId) || nowPlaying.NullItem? ==> added.None?
    ensures added.None? && !NoPlaylist(playlistId) && !nowPlaying.NullItem? ==>
              forall i :: 0 <= i < |tracks| && Votable(CurrentId(nowPlaying), cooldown, tracks[i]) ==> LookupVotes(votes, tracks[i].id) == 0
    ensures added.Some? ==>
      exists i :: 0 <= i < |tracks| && tracks[i].id == added && Votable(CurrentId(nowPlaying), cooldown, tracks[i])
        && (forall j :: 0 <= j < i && Votable(CurrentId(nowPlaying), cooldown, tracks[j]) ==>
              LookupVotes(votes, tracks[j].id) < LookupVotes(votes, added))
    ensures added.Some? ==> LookupVotes(votes, added) > 0
    ensures added.Some? ==>
      forall i :: 0 <= i < |tracks| && Votable(CurrentId(nowPlaying), cooldown, tracks[i]) ==>
        LookupVotes(votes, tracks[i].id) <= LookupVotes(votes, added)
  {
    if NoPlaylist(playlistId) || nowPlaying.NullItem? || |tracks| == 0 {
      return None;
    }
    var best := TopVoted(tracks, CurrentId(nowPlaying), cooldown, votes);
    if best == -1 || LookupVotes(votes, tracks[best].id) == 0 {
      return None;
    }
    added := tracks[best].id;
  }

  /** A playlist track with the `votes` field `getUpcomingTracksWithVotes` adds. */
  datatype Upcoming = Upcoming(track: Track, votes: nat)

  function UpcomingVotes(u: Upcoming): int {
    u.votes
  }

  function NotCurrent(current: Option<string>): Track -> bool {
    (t: Track) => t.id != current
  }

  function AnnotateTracks(tracks: seq<Track>, votes: map<string, nat>): (r: seq<Upcoming>)
    ensures |r| == |tracks|
    ensures forall i :: 0 <= i < |tracks| ==> r[i] == Upcoming(tracks[i], LookupVotes(votes, tracks[i].id))
  {
    if |tracks| == 0 then [] else [Upcoming(tracks[0], LookupVotes(votes, tracks[0].id))] + AnnotateTracks(tracks[1..], votes)
  }

  /**
   * `getUpcomingTracksWithVotes`: the playlist without the playing track, each with its votes, by votes
   * descending with ties in playlist order. Without a playlist id, or on a null `item`, it is empty.
   */
  function GetUpcomingTracksWithVotes(playlistId: Option<string>, nowPlaying: NowPlaying, tracks: seq<Track>,
                                      votes: map<string, nat>): (r: seq<Upcoming>)
    ensures playlistId.None? || nowPlaying.NullItem? ==> r == []
    ensures forall i :: 0 <= i < |r| ==> r[i].track.id != CurrentId(nowPlaying) && r[i].track in tracks
    ensures forall i :: 0 <= i < |r| ==> r[i].votes == LookupVotes(votes, r[i].track.id)
    ensures Descending(r, UpcomingVotes)
    ensures playlistId.Some? && !nowPlaying.NullItem? ==>
              multiset(r) == multiset(AnnotateTracks(Filter(tracks, NotCurrent(CurrentId(nowPlaying))), votes))
  {
    if playlistId.None? || nowPlaying.NullItem? then []
    else
      var upNext := Filter(tracks, NotCurrent(CurrentId(nowPlaying)));
      var annotated := AnnotateTracks(upNext, votes);
      var r := Sort(annotated, UpcomingVotes);
      FilterSatisfies(tracks, NotCurrent(CurrentId(nowPlaying)));
      FilterMembers(tracks, NotCurrent(CurrentId(nowPlaying)));
      forall i | 0 <= i < |r| ensures r[i].track.id != CurrentId(nowPlaying) && r[i].track in tracks
        && r[i].votes == LookupVotes(votes, r[i].track.id)
      {
        assert r[i] in multiset(annotated);
        var k :| 0 <= k < |annotated| && annotated[k] == r[i];
        assert upNext[k] in upNext;
      }
      r
  }

  /** Tracks with equal votes keep their playlist order. */
  lemma UpcomingStable(playlistId: Option<string>, nowPlaying: NowPlaying, tracks: seq<Track>, votes: map<string, nat>, k: int)
    requires playlistId.Some? && !nowPlaying.NullItem?
    ensures Filter(GetUpcomingTracksWithVotes(playlistId, nowPlaying, tracks, votes), HasKey(UpcomingVotes, k))
              == Filter(AnnotateTracks(Filter(tracks, NotCurrent(CurrentId(nowPlaying))), votes), HasKey(UpcomingVotes, k))
  {
    SortStable(AnnotateTracks(Filter(tracks, NotCurrent(CurrentId(nowPlaying))), votes), UpcomingVotes, k);
  }

  /** A device of the user's Spotify account. */
  datatype Device = Device(id: Option<string>, active: bool)

  /**
   * `getActiveDeviceId`: the id of the first active device; null when no device is active, and also
   * when that device's id is null (`findFirst` throws on it and the method returns null).
   */
  function GetActiveDeviceId(devices: seq<Device>): (r: Option<string>)
    ensures r.Some? ==> exists i :: 0 <= i < |devices| && devices[i].active && devices[i].id == r
                          && forall j :: 0 <= j < i ==> !devices[j].active
    ensures r.None? <==> (forall i :: 0 <= i < |devices| ==> !devices[i].active)
                          || exists i :: 0 <= i < |devices| && devices[i].active && devices[i].id.None?
                                          && forall j :: 0 <= j < i ==> !devices[j].active
  {
    if |devices| == 0 then None
    else if devices[0].active then devices[0].id
    else
      var r := GetActiveDeviceId(devices[1..]);
      assert forall i :: 1 <= i < |devices| ==> devices[i] == devices[1..][i - 1];
      r
  }
}

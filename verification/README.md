# Spoty Jukebox: voting, cooldown and reorder core in Dafny

This project models the decision logic of the Spoty Jukebox backend. Guests of a Spotify session owner
vote for tracks. The backend turns the live votes into a reordered Jukebox playlist, a queue ranking
and a "next track" choice. It also keeps recently played tracks out of the running for a while.

The model covers four parts.

- **Vote store and cooldown tracker** (`VoteService`, `VoteRepository`, `PlayedSongRepository`).
  - Votes and played songs are sequences of rows in insertion order.
  - Time is an integer number of seconds, and the one-hour vote window is `VoteService.VoteWindow`.
  - The Redis play history of one owner is a sequence of track ids, newest first (`PlayHistory`).
  - Each operation is one sequential step: rows in, rows out.
- **Playlist reorder engine** (`Reorder`).
  - `sortPlaylistByVotes` sorts tracks into three buckets: voted, unvoted and cooldown.
  - `updateJukeboxPlaylist` pins the track now playing to the top.
  - `replacePlaylistTracks` splits the rewrite into 100-track batches, modelled as a request plan.
- **Queue rankings** (`QueueRanking`): `getQueue`, `reorderQueueByVotes`, `getUpcomingTracksWithVotes`
  and `getActiveDeviceId`. The Web API responses (now playing, tracks, devices) are parameters.
- **Users** (`TokenValidation`, `UserMapping`, `UserService`).
  - Request validation and entity mapping.
  - The upsert keyed by email, over a table with a unique Spotify user id.

Shared building blocks:
- `Seqs`: filtering, reversal and first-occurrence search.
- `StableSort`: a stable insertion sort, descending by an integer key. It is the behaviour of Java's
  `List.sort` and `Stream.sorted` with a reversed `comparingLong`. Its stability is proved as
  "filtering any one key's elements out of the result gives them in input order" (`StableSort.SortStable`).

Where the database leaves an order open, the model fixes one and says so in its doc comment:
- equal `playedAt` values: later insertion first;
- equal vote counts in `findRecentVoteCounts`: order of first vote;
- the entry order of a `HashMap`: any order, chosen by `:|` in `VoteService.MapEntries`.

Where the code and its own description disagree, the model follows the code:
- `updateJukeboxPlaylist` inserts the now-playing uri at the top even when the playlist does not contain it.
- `persistOrUpdate` looks the user up by email, not by Spotify user id.
- `addPlayedSong` deletes the newest recent track, not the oldest; see Findings.

## Model

| member | source | states |
|---|---|---|
| VoteService.CleanupOldVotes | backend/spotyjukeboxapp/src/main/java/org/bithub/service/VoteService.java:71-77 | a vote survives the cleanup exactly when it was created no more than an hour before `now`, for every owner; a vote exactly at the threshold survives |
| VoteService.CleanupOldVotesIdempotent | backend/spotyjukeboxapp/src/main/java/org/bithub/service/VoteService.java:71-77 | cleaning up twice at the same instant equals cleaning up once |
| VoteService.AddVote | backend/spotyjukeboxapp/src/main/java/org/bithub/service/VoteService.java:95-116 | fails exactly when a vote of the same owner, track and guest survives the cleanup; otherwise the rows are the cleaned rows plus one vote with those fields stamped `now` |
| VoteService.AddVoteKeepsUniqueVoters | backend/spotyjukeboxapp/src/main/java/org/bithub/service/VoteService.java:95-116 | a successful vote keeps at most one vote per owner, track and guest |
| VoteService.FilterUniqueVoters | backend/spotyjukeboxapp/src/main/java/org/bithub/service/VoteService.java:96 | deleting rows (the purge) keeps votes unique per owner, track and guest |
| VoteService.SecondVoteRejected | backend/spotyjukeboxapp/src/main/java/org/bithub/service/VoteService.java:98-104 | after a successful vote, the same guest's vote for the same track within the hour is rejected |
| VoteService.ResetVotesForPlayedTrack | backend/spotyjukeboxapp/src/main/java/org/bithub/service/VoteService.java:131-148 | removes exactly the owner's votes for the track, keeps every other vote, and appends one played-song row for owner and track at `now` |
| VoteService.ResetClearsCount | backend/spotyjukeboxapp/src/main/java/org/bithub/service/VoteService.java:134-135 | after the reset the track has no recent votes left, the `remaining == 0` case |
| VoteService.RowsToMap | backend/spotyjukeboxapp/src/main/java/org/bithub/service/VoteService.java:165-169 | the map's keys are exactly the rows' tracks, each mapped to a count of one of its rows |
| VoteService.CleanupKeepsCounts | backend/spotyjukeboxapp/src/main/java/org/bithub/service/VoteService.java:161-172 | the cleanup before counting changes no count, because it deletes only votes the count excludes |
| VoteService.GetActiveVotes | backend/spotyjukeboxapp/src/main/java/org/bithub/service/VoteService.java:161-172 | a track is a key exactly when the owner has a vote for it created strictly within the hour, and maps to the number of those votes; the rows are the cleaned rows |
| VoteService.ResetRemovesActiveVotes | backend/spotyjukeboxapp/src/main/java/org/bithub/service/VoteService.java:131-172 | after a reset the played track is absent from the active votes at any later time |
| VoteService.GetRankedTracks | backend/spotyjukeboxapp/src/main/java/org/bithub/service/VoteService.java:192-199 | the result holds exactly the active-vote entries, each track once with its count, ordered by count descending |
| VoteService.MapEntries | backend/spotyjukeboxapp/src/main/java/org/bithub/service/VoteService.java:195-196 | every map entry is listed once with its value, and nothing else is listed |
| VoteService.RankedEntries | backend/spotyjukeboxapp/src/main/java/org/bithub/service/VoteService.java:195-198 | sorting the entries keeps exactly the map's entries, each once |
| VoteService.AddPlayedSongAsWritten | backend/spotyjukeboxapp/src/main/java/org/bithub/service/VoteService.java:202-219 | as written: no change when the track is among the owner's three newest; otherwise its row stamped `now` is appended, and when three rows were recent every row of the owner's newest recent track, `recent[0]`, is deleted and nothing else; other owners' rows are untouched |
| VoteService.AddPlayedSongAsWrittenDropsNewest | backend/spotyjukeboxapp/src/main/java/org/bithub/service/VoteService.java:215-217 | as written, with three recent tracks the new window is the new track followed by the second and third newest, which is not the shifted window |
| VoteService.AddPlayedSong | backend/spotyjukeboxapp/src/main/java/org/bithub/service/VoteService.java:202-219 | corrected eviction: no change when the track is recent; otherwise its row stamped `now` is appended, and when three rows were recent every row of the oldest recent track, `recent[2]`, is deleted and nothing else; other owners' rows are untouched |
| VoteService.AddPlayedSongShiftsWindow | backend/spotyjukeboxapp/src/main/java/org/bithub/service/VoteService.java:205-219 | with the corrected eviction and a window without a repeated track, the owner's three newest tracks become the new track followed by the previous window minus its oldest |
| VoteService.AddPlayedSongWindow | backend/spotyjukeboxapp/src/main/java/org/bithub/service/VoteService.java:205-219 | with the corrected eviction, for every window (repeated tracks included): the new track in front of the owner's previous newest-first ids with every id of `recent[2]` removed, cut to three; just prepended when fewer than three were recent |
| VoteService.AddPlayedSongAsWrittenWindow | backend/spotyjukeboxapp/src/main/java/org/bithub/service/VoteService.java:205-219 | as written, for every window: the new track in front of the owner's previous newest-first ids with every id of `recent[0]` removed, cut to three; just prepended when fewer than three were recent |
| VoteService.AddPlayedSongRepeatedWindow | backend/spotyjukeboxapp/src/main/java/org/bithub/service/VoteService.java:143-147 | a window `[x, y, x]`, which a reset's unconditional append can produce, does not shift even with the corrected eviction: deleting all of `x` lets `y` follow the new track |
| VoteService.WindowAfterAppend | backend/spotyjukeboxapp/src/main/java/org/bithub/service/VoteService.java:208-213 | with fewer than three recent rows, saving a row puts its track in front of the window |
| VoteService.WindowAfterAdd | backend/spotyjukeboxapp/src/main/java/org/bithub/service/VoteService.java:208-217 | the window after a save and an eviction is the new track followed by the owner's ids without the evicted track |
| VoteRepository.FindByOwnerAndTrack | backend/spotyjukeboxapp/src/main/java/org/bithub/persistence/VoteRepository.java:66 | returns all and only the votes of that owner for that track |
| VoteRepository.DeleteVotesForTrack | backend/spotyjukeboxapp/src/main/java/org/bithub/persistence/VoteRepository.java:45-46 | keeps exactly the votes not matching both owner and track; the kept and the matching rows add up to all rows |
| VoteRepository.DeleteOldVotes | backend/spotyjukeboxapp/src/main/java/org/bithub/persistence/VoteRepository.java:56-57 | keeps exactly the votes created at or after the threshold, for every owner |
| VoteRepository.DeleteOldVotesIdempotent | backend/spotyjukeboxapp/src/main/java/org/bithub/persistence/VoteRepository.java:56-57 | deleting with the same threshold twice equals deleting once |
| VoteRepository.RecentCountPositive | backend/spotyjukeboxapp/src/main/java/org/bithub/persistence/VoteRepository.java:31-32 | a track's count is positive exactly when the owner has a vote for it created strictly after `since` |
| VoteRepository.FindRecentVoteCounts | backend/spotyjukeboxapp/src/main/java/org/bithub/persistence/VoteRepository.java:31-35 | one row per track with a recent vote of the owner, each carrying that track's count of votes strictly after `since`, ordered by count descending |
| PlayedSongRepository.NewestFirst | backend/spotyjukeboxapp/src/main/java/org/bithub/persistence/PlayedSongRepository.java:27 | the owner's rows and only those, as a permutation, ordered by `playedAt` descending |
| PlayedSongRepository.FindLast3Songs | backend/spotyjukeboxapp/src/main/java/org/bithub/persistence/PlayedSongRepository.java:27-28 | at most three ids, as many as the owner has rows up to three, each the track of one of the owner's rows, in newest-first order |
| PlayedSongRepository.DeleteByOwnerAndTrack | backend/spotyjukeboxapp/src/main/java/org/bithub/persistence/PlayedSongRepository.java:32-33 | removes every row of that owner and track, not just one, and keeps every other row |
| PlayedSongRepository.NewestFirstAppend | backend/spotyjukeboxapp/src/main/java/org/bithub/persistence/PlayedSongRepository.java:27 | a row no older than the owner's other rows becomes the owner's newest |
| PlayedSongRepository.NewestFirstDelete | backend/spotyjukeboxapp/src/main/java/org/bithub/persistence/PlayedSongRepository.java:27-33 | deleting one track's rows deletes them from the owner's newest-first order and keeps the rest in order |
| PlayHistory.RecentlyPlayed | backend/spotyjukeboxapp/src/main/java/org/bithub/service/VoteService.java:266-287 | the first three history entries, or all of them when there are fewer |
| PlayHistory.CooldownRemaining | backend/spotyjukeboxapp/src/main/java/org/bithub/service/VoteService.java:234-256 | 0 exactly when the track is not among the three newest entries; otherwise 3 minus its first position, so in 1..3 |
| PlayHistory.IsInCooldownMeans | backend/spotyjukeboxapp/src/main/java/org/bithub/service/VoteService.java:332-334 | a track is in cooldown exactly when it is one of the three newest history entries |
| PlayHistory.AddToPlayHistory | backend/spotyjukeboxapp/src/main/java/org/bithub/service/VoteService.java:296-313 | unchanged when the newest entry is the track; otherwise the track is put in front of the older entries in order, cut to ten entries |
| PlayHistory.PositionAfterPlays | backend/spotyjukeboxapp/src/main/java/org/bithub/service/VoteService.java:301-313 | after `k` other tracks are played, the track sits at position `k` and nowhere before it |
| PlayHistory.CooldownAfterPlays | backend/spotyjukeboxapp/src/main/java/org/bithub/service/VoteService.java:234-256 | after `k` other tracks follow it, none equal to it and no two in a row alike, a track's remaining cooldown is `max(0, 3 - k)` |
| Reorder.Normalize | backend/spotyjukeboxapp/src/main/java/org/bithub/service/SpotifyService.java:504-507 | strips exactly one leading `spotify:track:` and leaves every other string unchanged |
| Reorder.NormalizeUri | backend/spotyjukeboxapp/src/main/java/org/bithub/service/SpotifyService.java:504-507 | a track uri and its bare id normalize to the same key |
| Reorder.VoteCount | backend/spotyjukeboxapp/src/main/java/org/bithub/service/SpotifyService.java:525-526 | the count under the normalized id when that is a key, else the count under the normalized uri when that is a key, else 0; positive only for tracks with id and uri |
| Reorder.BucketsPartition | backend/spotyjukeboxapp/src/main/java/org/bithub/service/SpotifyService.java:513-535 | every track with an id and a uri lands in exactly one bucket, and no other track lands in any |
| Reorder.OrderTracks | backend/spotyjukeboxapp/src/main/java/org/bithub/service/SpotifyService.java:513-544 | the reordered tracks are a permutation of the tracks that have both an id and a uri |
| Reorder.OrderTracksOrdered | backend/spotyjukeboxapp/src/main/java/org/bithub/service/SpotifyService.java:522-544 | voted before unvoted before cooldown, with cooldown winning over votes; voted by count descending with equal counts in playlist order; unvoted and cooldown in playlist order |
| Reorder.OrderTracksWithoutVotes | backend/spotyjukeboxapp/src/main/java/org/bithub/service/SpotifyService.java:513-544 | with no votes and no cooldown tracks the playlist keeps its order, minus the tracks without id or uri |
| Reorder.UrisPermutation | backend/spotyjukeboxapp/src/main/java/org/bithub/service/SpotifyService.java:541-544 | rearranging tracks rearranges their uris |
| Reorder.SortPlaylistByVotes | backend/spotyjukeboxapp/src/main/java/org/bithub/service/SpotifyService.java:499-550 | the result is a permutation of the uris of the tracks with id and uri, and a uri occurs exactly when such a track has it |
| Reorder.Pin | backend/spotyjukeboxapp/src/main/java/org/bithub/service/SpotifyService.java:441-444 | the pinned uri is first and is followed by the sorted list with only its first copy of that uri removed; the other uris keep their order, and the list grows by one only when the uri was absent |
| Reorder.PinRepeatedUri | backend/spotyjukeboxapp/src/main/java/org/bithub/service/SpotifyService.java:441-444 | a playlist holding the pinned uri twice keeps the later copy in place: `[a, u, b, u]` becomes `[u, a, b, u]` |
| Reorder.UpdateJukeboxPlaylist | backend/spotyjukeboxapp/src/main/java/org/bithub/service/SpotifyService.java:409-453 | a rewrite happens exactly when the playlist id is not blank, the item is not null and some track has id and uri; it then writes the sorted list with the now-playing uri pinned (its first copy moved to the top, or the uri added there), or the sorted list unchanged when nothing plays |
| Reorder.PinnedPlaylistUris | backend/spotyjukeboxapp/src/main/java/org/bithub/service/SpotifyService.java:434-447 | with a playing uri the rewritten playlist holds each placeable track's uri once, plus one extra copy of the playing uri only when no placeable track carries it |
| Reorder.ReplacePlaylistTracks | backend/spotyjukeboxapp/src/main/java/org/bithub/service/SpotifyService.java:469-481 | the batches concatenate to the uri list; ceil(n/100) requests; the first a PUT, the rest POSTs; every batch non-empty with at most 100 uris, all but the last full |
| QueueRanking.GetQueue | backend/spotyjukeboxapp/src/main/java/org/bithub/service/SpotifyService.java:273-287 | a permutation of the vote-annotated queue in which no cooldown entry precedes a fresh one |
| QueueRanking.GetQueueGroups | backend/spotyjukeboxapp/src/main/java/org/bithub/service/SpotifyService.java:280-285 | within the fresh group and within the cooldown group, entries are the group sorted by votes descending |
| QueueRanking.GetQueueStable | backend/spotyjukeboxapp/src/main/java/org/bithub/service/SpotifyService.java:280-285 | within each group, entries with equal votes keep queue order |
| QueueRanking.TopVoted | backend/spotyjukeboxapp/src/main/java/org/bithub/service/SpotifyService.java:601-614 | the first votable track with the most votes, or -1 exactly when no track is votable |
| QueueRanking.ReorderQueueByVotes | backend/spotyjukeboxapp/src/main/java/org/bithub/service/SpotifyService.java:581-632 | enqueues at most one track: the first votable track with the most votes, and only when that maximum is positive; nothing without a playlist or on a null item |
| QueueRanking.GetUpcomingTracksWithVotes | backend/spotyjukeboxapp/src/main/java/org/bithub/service/SpotifyService.java:663-692 | a permutation of the playlist tracks whose id differs from the playing id, each with its raw-id vote count, by votes descending; empty without a playlist id |
| QueueRanking.UpcomingStable | backend/spotyjukeboxapp/src/main/java/org/bithub/service/SpotifyService.java:681-682 | upcoming tracks with equal votes keep playlist order |
| QueueRanking.GetActiveDeviceId | backend/spotyjukeboxapp/src/main/java/org/bithub/service/SpotifyService.java:161-175 | the id of the first active device; null exactly when no device is active or the first active one has a null id |
| TokenValidation.IsBlankMeans | backend/spotyjukeboxapp/src/main/java/org/bithub/validate/TokenPersistRequestValidator.java:49-51 | a string is blank exactly when every character is one `trim` removes (code point up to U+0020) |
| TokenValidation.Trim | backend/spotyjukeboxapp/src/main/java/org/bithub/validate/TokenPersistRequestValidator.java:50 | the result is a slice of the input that neither starts nor ends with a trimmed character, and everything cut off on either side is a trimmed character (up to U+0020) |
| TokenValidation.Validate | backend/spotyjukeboxapp/src/main/java/org/bithub/validate/TokenPersistRequestValidator.java:25-41 | a null request, then a blank user id, access token and refresh token are rejected in that order, and the first failing check names the error; a request passes exactly when all three are non-blank |
| TokenValidation.ValidateIgnoresProfile | backend/spotyjukeboxapp/src/main/java/org/bithub/validate/TokenPersistRequestValidator.java:25-41 | email, display name and scopes do not affect the verdict |
| TokenValidation.SpacesAreBlank | backend/spotyjukeboxapp/src/main/java/org/bithub/validate/TokenPersistRequestValidator.java:34-36 | an access token made only of spaces is rejected |
| UserMapping.UpdateEntity | backend/spotyjukeboxapp/src/main/java/org/bithub/mapper/UserMapper.java:21-31 | the five request fields are copied, null included; null scopes become the empty set; id, timestamps, expiry and playlist id are kept |
| UserMapping.UpdateEntityIdempotent | backend/spotyjukeboxapp/src/main/java/org/bithub/mapper/UserMapper.java:21-31 | mapping the same request twice equals mapping it once |
| UserMapping.UpdateEntityForgets | backend/spotyjukeboxapp/src/main/java/org/bithub/mapper/UserMapper.java:21-31 | only the entity's kept fields reach the result |
| UserService.FindByEmail | backend/spotyjukeboxapp/src/main/java/org/bithub/service/UserService.java:65 | fails exactly when two rows share the email, finds nothing exactly when no row has it, and otherwise gives a row with that email |
| UserService.PersistOrUpdate | backend/spotyjukeboxapp/src/main/java/org/bithub/service/UserService.java:64-77 | a known email updates that row in place with the mapped request and `updatedAt = now`; the update keeps the row's id, `createdAt`, `expiresIn` and Jukebox playlist id; an unknown email appends one row seeded with user id and email, a fresh id, both timestamps `now` and no `expiresIn` or playlist id; the save fails with a duplicate Spotify user id exactly when the email is not duplicated and a row with another email (any row, when none matches) has that id |
| UserService.PersistKeepsUnique | backend/spotyjukeboxapp/src/main/java/org/bithub/service/UserService.java:64-77 | a save keeps emails and Spotify user ids unique |
| UserService.PersistTwice | backend/spotyjukeboxapp/src/main/java/org/bithub/service/UserService.java:64-77 | persisting the same request again at the same instant changes nothing |
| UserService.GetById | backend/spotyjukeboxapp/src/main/java/org/bithub/service/UserService.java:90-92 | a stored user with that Spotify user id, or null exactly when there is none |
| UserService.FindBySpotifyUserId | backend/spotyjukeboxapp/src/main/java/org/bithub/service/UserService.java:121-124 | a stored user with that Spotify user id, or a not-found failure exactly when there is none |
| UserService.LookupsAgree | backend/spotyjukeboxapp/src/main/java/org/bithub/service/UserService.java:90-124 | `getById` is null exactly when `findBySpotifyUserId` fails, and otherwise both give the same user |
| UserService.PersistThenGet | backend/spotyjukeboxapp/src/main/java/org/bithub/service/UserService.java:64-92 | after a successful save, looking up the saved Spotify user id gives the saved user |
| UserService.FindAllActiveJukeboxUsers | backend/spotyjukeboxapp/src/main/java/org/bithub/service/UserService.java:191-194 | every stored user, also those without a Jukebox playlist id |
| StableSort.Sort | backend/spotyjukeboxapp/src/main/java/org/bithub/service/SpotifyService.java:538-539 | a permutation of the input, descending by the key |
| StableSort.SortStable | backend/spotyjukeboxapp/src/main/java/org/bithub/service/SpotifyService.java:538-539 | elements with equal keys keep their input order |
| StableSort.SortThenGroup | backend/spotyjukeboxapp/src/main/java/org/bithub/service/SpotifyService.java:280-285 | a second stable sort by group leaves each group ordered by the first key |

## Left out

- Spotify Web API calls (`getNowPlaying`, `getPlaylistTracks`, `getAvailableDevices`, `addToQueue` and the playlist PUT/POST): network I/O. Their results are parameters, and the playlist rewrite is a request plan.
- Token refresh and the 401 retry recursion inside `replacePlaylistTracks` and the other calls: a network round-trip with no termination argument.
- The paging of `getPlaylistTracks` and the response-map parsing: transport details. A track is its `id` and `uri`.
- `@Scheduled` cleanup timers: timer plumbing. `cleanupOldVotes` is modelled as an operation.
- `@Transactional` boundaries and concurrent requests: every operation is one sequential step. A failed `addVote` rolls back its own cleanup, so the failure returns no rows.
- The Redis key expiry of one hour in `addToPlayHistory`, and the Redis exceptions that the history methods catch (they return an empty list, 0, or do nothing): the external store's timing and failures.
- The exceptions `addPlayedSong` and the playlist methods catch and only log, other than a null `item`: I/O failures.
- Logging, the `deleted` count of `cleanupOldVotes`, and the `remaining` count of `resetVotesForPlayedTrack`, which only feed log lines.
- WebSocket broadcasts, controllers, CORS and the random default client id: transport and nondeterminism.
- `getUserPlaylists`, `getByEmail`, `findByRefreshToken` and the rest of `UserService`: placeholders or plain lookups outside the core.
- The NOT NULL and length constraints of the `user_info` columns: the schema is not part of this model. The create path of `persistOrUpdate` sets no `expiresIn`.
- `@PrePersist` and `@PreUpdate` timestamps are modelled as the `now` parameter. `updatedAt` is set on every update, because the mapper always replaces the scopes collection, which marks the row dirty.
- The order SQL gives to equal `playedAt` values and equal vote counts, and the entry order of a `HashMap`: the model fixes one order, as described above.
- `LocalDateTime` precision: times are whole seconds.
- VoteService.AddPlayedSongShiftsWindow: holds only for windows without a repeated track. A reset appends a played row without looking at the window (VoteService.java:143-147), so windows such as `[x, y, x]` do occur. For those the deletion of every row of `recent[2]` also removes the newer copy, and the window does not shift. VoteService.AddPlayedSongWindow states the result for every window, and VoteService.AddPlayedSongRepeatedWindow shows the repeated case.
- VoteService.AddPlayedSongAsWrittenDropsNewest: exhibited on a window without a repeated track; VoteService.AddPlayedSongAsWrittenWindow states the as-written result for every window.
- UserService.FindByEmail: a `findByEmail` that matches several rows throws in Spring Data; the model returns a `NonUniqueEmail` failure and `persistOrUpdate` passes it on.

## Findings

| source | as written | input that shows it | evidently intended | confidence | as-written member | corrected member |
|---|---|---|---|---|---|---|
| backend/spotyjukeboxapp/src/main/java/org/bithub/service/VoteService.java:215-217 | when three tracks are recent, `addPlayedSong` deletes every row of `recent.get(0)`; `findLast3Songs` orders by `playedAt DESC`, so that is the newest of the three | recent tracks `[c, b, a]` (c newest), new track `d`: the window becomes `[d, b, a]`, and `c`, played just before `d`, leaves the cooldown at once | delete the oldest of the three, `recent.get(2)`, so the window becomes `[d, c, b]`; this shift holds for windows without a repeated track, since deleting every row of a repeated `recent.get(2)` also removes its newer copy | not executed | VoteService.AddPlayedSongAsWritten (with VoteService.AddPlayedSongAsWrittenDropsNewest) | VoteService.AddPlayedSong (with VoteService.AddPlayedSongShiftsWindow) |

/**
 * The playlist side of `SpotifyService`: ordering the Jukebox playlist by live votes with cooldown
 * tracks last, keeping the playing track on top, and splitting the rewrite into Web API batches.
 * The vote map and the cooldown list are what `VoteService.getActiveVotes` and
 * `VoteService.getCooldownTracks` return; the Web API responses are parameters.
 */
module Reorder {
  import opened Wrappers
  import opened Seqs
  import opened StableSort

  /** A playlist track: its `id` and `uri` fields, either of which may be null. */
  datatype Track = Track(id: Option<string>, uri: Option<string>)

  /** The currently-playing response: without an `item`, with a null `item`, or with an item. */
  datatype NowPlaying = NotPlaying | NullItem | Item(id: Option<string>, uri: Option<string>)

  const TrackPrefix: string := "spotify:track:"

  /** Strips one leading `spotify:track:` from a track reference. */
  function Normalize(ref: string): (r: string)
    ensures TrackPrefix <= ref ==> TrackPrefix + r == ref
    ensures !(TrackPrefix <= ref) ==> r == ref
  {
    if TrackPrefix <= ref then ref[|TrackPrefix|..] else ref
  }

  /** A track URI and its bare id normalize to the same id. */
  lemma NormalizeUri(id: string)
    requires !(TrackPrefix <= id)
    ensures Normalize(TrackPrefix + id) == id && Normalize(id) == id
  {
    assert TrackPrefix <= TrackPrefix + id;
  }

  /**
   * Java's `Character.isWhitespace`: the Unicode space, line and paragraph separators except the
   * non-breaking ones, and the ASCII controls TAB, LF, VT, FF, CR and FS, GS, RS, US.
   */
  predicate JavaWhitespace(c: char) {
    || c == ' ' || c == '\t' || c == '\n' || c == '\U{000B}' || c == '\U{000C}' || c == '\r'
    || ('\U{001C}' <= c <= '\U{001F}')
    || c == '\U{1680}'
    || ('\U{2000}' <= c <= '\U{2006}') || ('\U{2008}' <= c <= '\U{200A}')
    || c == '\U{2028}' || c == '\U{2029}' || c == '\U{205F}' || c == '\U{3000}'
  }

  /** `playlistId == null || playlistId.isBlank()`. */
  predicate NoPlaylist(playlistId: Option<string>) {
    playlistId.None? || forall i :: 0 <= i < |playlistId.value| ==> JavaWhitespace(playlistId.value[i])
  }

  /** A track the reorder can place: both `id` and `uri` are present. */
  predicate Placeable(t: Track) {
    t.id.Some? && t.uri.Some?
  }

  /** The live vote count of a track: by its normalized id, else by its normalized uri, else 0. */
  function VoteCount(votes: map<string, nat>, t: Track): (n: nat)
    ensures n > 0 ==> Placeable(t)
    ensures Placeable(t) && Normalize(t.id.value) in votes ==> n == votes[Normalize(t.id.value)]
    ensures Placeable(t) && Normalize(t.id.value) !in votes && Normalize(t.uri.value) in votes ==>
              n == votes[Normalize(t.uri.value)]
    ensures Placeable(t) && Normalize(t.id.value) !in votes && Normalize(t.uri.value) !in votes ==> n == 0
  {
    if !Placeable(t) then 0
    else
      var nid, nuri := Normalize(t.id.value), Normalize(t.uri.value);
      if nid in votes then votes[nid] else if nuri in votes then votes[nuri] else 0
  }

  /** A track whose normalized id or uri is one of the cooldown tracks. */
  predicate Cooling(cooldown: seq<string>, t: Track) {
    Placeable(t) && (Normalize(t.id.value) in cooldown || Normalize(t.uri.value) in cooldown)
  }

  /** The three lists `sortPlaylistByVotes` fills. */
  datatype Bucket = Voted | Unvoted | Cooldown

  /** Cooldown wins over votes; a track without votes is unvoted. */
  function BucketOf(votes: map<string, nat>, cooldown: seq<string>, t: Track): Bucket {
    if Cooling(cooldown, t) then Cooldown
    else if VoteCount(votes, t) > 0 then Voted
    else Unvoted
  }

  /** The position of a bucket in the final order. */
  function Rank(b: Bucket): nat {
    match b
    case Voted => 0
    case Unvoted => 1
    case Cooldown => 2
  }

  function InBucket(votes: map<string, nat>, cooldown: seq<string>, b: Bucket): Track -> bool {
    (t: Track) => Placeable(t) && BucketOf(votes, cooldown, t) == b
  }

  function CountKey(votes: map<string, nat>): Track -> int {
    (t: Track) => VoteCount(votes, t)
  }

  /** A single track is in exactly one bucket when it is placeable and in none otherwise. */
  lemma BucketOfOne(t: Track, votes: map<string, nat>, cooldown: seq<string>)
    ensures multiset(Filter([t], InBucket(votes, cooldown, Voted))) + multiset(Filter([t], InBucket(votes, cooldown, Unvoted)))
              + multiset(Filter([t], InBucket(votes, cooldown, Cooldown))) == multiset(Filter([t], Placeable))
  {
    var v, u, c := InBucket(votes, cooldown, Voted), InBucket(votes, cooldown, Unvoted), InBucket(votes, cooldown, Cooldown);
    FilterCons(t, [], v);
    FilterCons(t, [], u);
    FilterCons(t, [], c);
    FilterCons(t, [], Placeable);
    assert [t] + [] == [t];
  }

  /** Every placeable track is in exactly one bucket. */
  lemma {:induction false} BucketsPartition(tracks: seq<Track>, votes: map<string, nat>, cooldown: seq<string>)
    ensures multiset(Filter(tracks, InBucket(votes, cooldown, Voted))) + multiset(Filter(tracks, InBucket(votes, cooldown, Unvoted)))
              + multiset(Filter(tracks, InBucket(votes, cooldown, Cooldown))) == multiset(Filter(tracks, Placeable))
  {
    if |tracks| > 0 {
      var t, rest := tracks[0], tracks[1..];
      var v, u, c := InBucket(votes, cooldown, Voted), InBucket(votes, cooldown, Unvoted), InBucket(votes, cooldown, Cooldown);
      assert tracks == [t] + rest;
      BucketsPartition(rest, votes, cooldown);
      BucketOfOne(t, votes, cooldown);
      FilterConcat([t], rest, v);
      FilterConcat([t], rest, u);
      FilterConcat([t], rest, c);
      FilterConcat([t], rest, Placeable);
    }
  }

  /** Every element of `s` is in bucket `b`. */
  lemma InBucketAll(s: seq<Track>, from: seq<Track>, votes: map<string, nat>, cooldown: seq<string>, b: Bucket)
    requires multiset(s) == multiset(Filter(from, InBucket(votes, cooldown, b)))
    ensures forall i :: 0 <= i < |s| ==> InBucket(votes, cooldown, b)(s[i])
  {
    forall i | 0 <= i < |s| ensures InBucket(votes, cooldown, b)(s[i]) {
      assert s[i] in multiset(s);
      FilterMembers(from, InBucket(votes, cooldown, b));
    }
  }

  /** What filtering the concatenated buckets by one bucket gives. */
  lemma FilterBuckets(a: seq<Track>, b: seq<Track>, c: seq<Track>, votes: map<string, nat>, cooldown: seq<string>)
    requires forall i :: 0 <= i < |a| ==> InBucket(votes, cooldown, Voted)(a[i])
    requires forall i :: 0 <= i < |b| ==> InBucket(votes, cooldown, Unvoted)(b[i])
    requires forall i :: 0 <= i < |c| ==> InBucket(votes, cooldown, Cooldown)(c[i])
    ensures Filter(a + b + c, InBucket(votes, cooldown, Voted)) == a
    ensures Filter(a + b + c, InBucket(votes, cooldown, Unvoted)) == b
    ensures Filter(a + b + c, InBucket(votes, cooldown, Cooldown)) == c
  {
    var v, u, k := InBucket(votes, cooldown, Voted), InBucket(votes, cooldown, Unvoted), InBucket(votes, cooldown, Cooldown);
    FilterConcat(a + b, c, v);
    FilterConcat(a, b, v);
    FilterConcat(a + b, c, u);
    FilterConcat(a, b, u);
    FilterConcat(a + b, c, k);
    FilterConcat(a, b, k);
    FilterAll(a, v);
    FilterNone(b, v);
    FilterNone(c, v);
    FilterNone(a, u);
    FilterAll(b, u);
    FilterNone(c, u);
    FilterNone(a, k);
    FilterNone(b, k);
    FilterAll(c, k);
  }

  /** Bucket ranks never decrease along the concatenated buckets. */
  lemma RanksAscend(a: seq<Track>, b: seq<Track>, c: seq<Track>, votes: map<string, nat>, cooldown: seq<string>)
    requires forall i :: 0 <= i < |a| ==> InBucket(votes, cooldown, Voted)(a[i])
    requires forall i :: 0 <= i < |b| ==> InBucket(votes, cooldown, Unvoted)(b[i])
    requires forall i :: 0 <= i < |c| ==> InBucket(votes, cooldown, Cooldown)(c[i])
    ensures var r := a + b + c;
      forall i, j :: 0 <= i < j < |r| ==> Rank(BucketOf(votes, cooldown, r[i])) <= Rank(BucketOf(votes, cooldown, r[j]))
  {
    var r := a + b + c;
    forall i | 0 <= i < |r|
      ensures Rank(BucketOf(votes, cooldown, r[i])) == if i < |a| then 0 else if i < |a| + |b| then 1 else 2
    {
      if i < |a| {
        assert r[i] == a[i];
      } else if i < |a| + |b| {
        assert r[i] == b[i - |a|];
      } else {
        assert r[i] == c[i - |a| - |b|];
      }
    }
  }

  /**
   * The order `sortPlaylistByVotes` builds, as tracks: the voted tracks by count descending, then the
   * unvoted ones, then the cooldown ones; tracks without an id or a uri are dropped.
   */
  function OrderTracks(tracks: seq<Track>, votes: map<string, nat>, cooldown: seq<string>): (r: seq<Track>)
    ensures multiset(r) == multiset(Filter(tracks, Placeable))
  {
    BucketsPartition(tracks, votes, cooldown);
    Sort(Filter(tracks, InBucket(votes, cooldown, Voted)), CountKey(votes))
      + Filter(tracks, InBucket(votes, cooldown, Unvoted)) + Filter(tracks, InBucket(votes, cooldown, Cooldown))
  }

  /**
   * The order of the reordered playlist: buckets in the order voted, unvoted, cooldown; voted tracks
   * by count descending, keeping playlist order among equal counts; the other buckets in playlist order.
   */
  lemma OrderTracksOrdered(tracks: seq<Track>, votes: map<string, nat>, cooldown: seq<string>)
    ensures var r := OrderTracks(tracks, votes, cooldown);
      && (forall i, j :: 0 <= i < j < |r| ==> Rank(BucketOf(votes, cooldown, r[i])) <= Rank(BucketOf(votes, cooldown, r[j])))
      && Descending(Filter(r, InBucket(votes, cooldown, Voted)), CountKey(votes))
      && (forall k :: Filter(Filter(r, InBucket(votes, cooldown, Voted)), HasKey(CountKey(votes), k))
                   == Filter(Filter(tracks, InBucket(votes, cooldown, Voted)), HasKey(CountKey(votes), k)))
      && Filter(r, InBucket(votes, cooldown, Unvoted)) == Filter(tracks, InBucket(votes, cooldown, Unvoted))
      && Filter(r, InBucket(votes, cooldown, Cooldown)) == Filter(tracks, InBucket(votes, cooldown, Cooldown))
  {
    var voted := Filter(tracks, InBucket(votes, cooldown, Voted));
    var unvoted := Filter(tracks, InBucket(votes, cooldown, Unvoted));
    var cooling := Filter(tracks, InBucket(votes, cooldown, Cooldown));
    var sorted := Sort(voted, CountKey(votes));
    InBucketAll(sorted, tracks, votes, cooldown, Voted);
    InBucketAll(unvoted, tracks, votes, cooldown, Unvoted);
    InBucketAll(cooling, tracks, votes, cooldown, Cooldown);
    FilterBuckets(sorted, unvoted, cooling, votes, cooldown);
    RanksAscend(sorted, unvoted, cooling, votes, cooldown);
    forall k ensures Filter(sorted, HasKey(CountKey(votes), k)) == Filter(voted, HasKey(CountKey(votes), k)) {
      SortStable(voted, CountKey(votes), k);
    }
  }

  /** Without votes and cooldown tracks the playlist keeps its order. */
  lemma OrderTracksWithoutVotes(tracks: seq<Track>)
    ensures OrderTracks(tracks, map[], []) == Filter(tracks, Placeable)
  {
    var v, u, c := InBucket(map[], [], Voted), InBucket(map[], [], Unvoted), InBucket(map[], [], Cooldown);
    forall i | 0 <= i < |tracks| ensures !v(tracks[i]) {
      assert VoteCount(map[], tracks[i]) == 0;
    }
    forall i | 0 <= i < |tracks| ensures !c(tracks[i]) {
    }
    forall i | 0 <= i < |tracks| ensures u(tracks[i]) == Placeable(tracks[i]) {
      assert VoteCount(map[], tracks[i]) == 0;
    }
    FilterNone(tracks, v);
    FilterNone(tracks, c);
    FilterSame(tracks, u, Placeable);
    var kept := Filter(tracks, Placeable);
    calc {
      OrderTracks(tracks, map[], []);
      Sort(Filter(tracks, v), CountKey(map[])) + Filter(tracks, u) + Filter(tracks, c);
      { assert Filter(tracks, v) == []; }
      Sort([], CountKey(map[])) + kept + [];
      { assert Sort([], CountKey(map[])) == []; }
      [] + kept + [];
      { assert [] + kept + [] == kept; }
      kept;
    }
  }

  /** A track's `uri`, which is present for every placeable track. */
  function UriOf(t: Track): string {
    if t.uri.Some? then t.uri.value else ""
  }

  function Uris(s: seq<Track>): (r: seq<string>)
    ensures |r| == |s|
    ensures forall i :: 0 <= i < |s| ==> r[i] == UriOf(s[i])
  {
    if |s| == 0 then [] else [UriOf(s[0])] + Uris(s[1..])
  }

  /** The uris of two pieces are the uris of the whole. */
  lemma UrisConcat(a: seq<Track>, b: seq<Track>)
    ensures Uris(a + b) == Uris(a) + Uris(b)
  {
    var l, r := Uris(a + b), Uris(a) + Uris(b);
    forall i | 0 <= i < |l| ensures l[i] == r[i] {
      if i >= |a| {
        assert (a + b)[i] == b[i - |a|];
      }
    }
  }

  /** Cancelling one element from two equal multisets. */
  lemma MultisetCancel<T>(m: multiset<T>, n: multiset<T>, x: T)
    requires m + multiset{x} == n + multiset{x}
    ensures m == n
  {
    assert forall y :: m[y] == n[y] by {
      forall y ensures m[y] == n[y] {
        assert (m + multiset{x})[y] == (n + multiset{x})[y];
      }
    }
  }

  /** Removing the track at `k` removes its uri from the uris. */
  lemma UrisRemoveAt(b: seq<Track>, k: nat)
    requires k < |b|
    ensures multiset(b) == multiset(b[..k] + b[k + 1..]) + multiset{b[k]}
    ensures multiset(Uris(b)) == multiset(Uris(b[..k] + b[k + 1..])) + multiset{UriOf(b[k])}
  {
    SplitAt(b, k);
    UrisConcat(b[..k], b[k + 1..]);
    UrisConcat(b[..k], [b[k]]);
    UrisConcat(b[..k] + [b[k]], b[k + 1..]);
  }

  /** Two rearrangements of each other, without the first of one and its occurrence at `k` in the other. */
  lemma PermutationRemove(a: seq<Track>, b: seq<Track>, k: nat)
    requires multiset(a) == multiset(b)
    requires 0 < |a| && k < |b| && b[k] == a[0]
    ensures multiset(a[1..]) == multiset(b[..k] + b[k + 1..])
  {
    UrisRemoveAt(b, k);
    assert a == [a[0]] + a[1..];
    MultisetCancel(multiset(b[..k] + b[k + 1..]), multiset(a[1..]), a[0]);
  }

  /** Putting the removed track back on both sides puts its uri back. */
  lemma UrisRestore(a: seq<Track>, b: seq<Track>, k: nat)
    requires 0 < |a| && k < |b| && b[k] == a[0]
    requires multiset(Uris(a[1..])) == multiset(Uris(b[..k] + b[k + 1..]))
    ensures multiset(Uris(a)) == multiset(Uris(b))
  {
    UrisRemoveAt(b, k);
    assert Uris(a) == [UriOf(a[0])] + Uris(a[1..]);
  }

  /** Rearranging tracks rearranges their uris. */
  lemma {:induction false} UrisPermutation(a: seq<Track>, b: seq<Track>)
    requires multiset(a) == multiset(b)
    ensures multiset(Uris(a)) == multiset(Uris(b))
  {
    if |a| == 0 {
      assert |b| == |multiset(b)| == 0;
    } else {
      assert a[0] in b by {
        assert a[0] in multiset(b);
      }
      var k :| 0 <= k < |b| && b[k] == a[0];
      PermutationRemove(a, b, k);
      UrisPermutation(a[1..], b[..k] + b[k + 1..]);
      UrisRestore(a, b, k);
    }
  }

  /**
   * `sortPlaylistByVotes`: the uris of the placeable tracks in bucket order, each placeable track's
   * uri once.
   */
  function SortPlaylistByVotes(tracks: seq<Track>, votes: map<string, nat>, cooldown: seq<string>): (r: seq<string>)
    ensures |r| == |Filter(tracks, Placeable)|
    ensures multiset(r) == multiset(Uris(Filter(tracks, Placeable)))
    ensures forall u :: u in r <==> exists t :: t in tracks && Placeable(t) && t.uri == Some(u)
  {
    var ordered := OrderTracks(tracks, votes, cooldown);
    assert |ordered| == |multiset(ordered)| == |Filter(tracks, Placeable)|;
    UrisPermutation(ordered, Filter(tracks, Placeable));
    UrisOfPlaceable(tracks, ordered);
    Uris(ordered)
  }

  /** The uris of a rearrangement of the placeable tracks are the uris of the placeable tracks. */
  lemma UrisOfPlaceable(tracks: seq<Track>, ordered: seq<Track>)
    requires multiset(ordered) == multiset(Filter(tracks, Placeable))
    ensures forall u :: u in Uris(ordered) <==> exists t :: t in tracks && Placeable(t) && t.uri == Some(u)
  {
    var r := Uris(ordered);
    FilterMembers(tracks, Placeable);
    forall t ensures t in ordered <==> t in tracks && Placeable(t) {
      assert t in ordered <==> t in multiset(ordered);
    }
    forall u | u in r ensures exists t :: t in tracks && Placeable(t) && t.uri == Some(u) {
      var i :| 0 <= i < |r| && r[i] == u;
      assert ordered[i] in ordered;
    }
    forall u | exists t :: t in tracks && Placeable(t) && t.uri == Some(u) ensures u in r {
      var t :| t in tracks && Placeable(t) && t.uri == Some(u);
      var i :| 0 <= i < |ordered| && ordered[i] == t;
      assert r[i] == u;
    }
  }

  /** The uri other than `u`. */
  function NotUri(u: string): string -> bool {
    (x: string) => x != u
  }

  /** `orderedUris.remove(currentUri); orderedUris.add(0, currentUri)`. */
  function Pin(ordered: seq<string>, current: string): (r: seq<string>)
    ensures |r| > 0 && r[0] == current
    ensures r[1..] == RemoveFirst(ordered, current)
    ensures Filter(r, NotUri(current)) == Filter(ordered, NotUri(current))
    ensures multiset(r) == if current in ordered then multiset(ordered) else multiset(ordered) + multiset{current}
  {
    var rest := RemoveFirst(ordered, current);
    RemoveFirstKeepsOthers(ordered, current, NotUri(current));
    FilterCons(current, rest, NotUri(current));
    assert current in ordered ==> current in multiset(ordered);
    [current] + rest
  }

  /** A playlist may repeat a uri: pinning moves only its first copy, a later copy stays where it was. */
  lemma PinRepeatedUri(a: string, u: string, b: string)
    requires a != u && b != u
    ensures Pin([a, u, b, u], u) == [u, a, b, u]
  {
    var r := Pin([a, u, b, u], u);
    RemoveSecondCopy(a, u, b);
    HeadAndRest(r, u, [a, b, u]);
    FourInOrder(u, a, b);
  }

  lemma FourInOrder<T>(u: T, a: T, b: T)
    ensures [u] + [a, b, u] == [u, a, b, u]
  {
    var l, r := [u] + [a, b, u], [u, a, b, u];
    assert |l| == |r| == 4;
    assert l[0] == r[0] && l[1] == r[1] && l[2] == r[2] && l[3] == r[3];
  }

  lemma HeadAndRest<T>(r: seq<T>, x: T, rest: seq<T>)
    requires |r| > 0 && r[0] == x && r[1..] == rest
    ensures r == [x] + rest
  {
  }

  lemma RemoveSecondCopy<T>(a: T, u: T, b: T)
    requires a != u && b != u
    ensures RemoveFirst([a, u, b, u], u) == [a, b, u]
  {
    var s := [a, u, b, u];
    assert IndexOf(s, u) == 1 by {
      assert s[1..][0] == u;
    }
    assert s[..1] + s[2..] == [a, b, u];
  }

  /**
   * `updateJukeboxPlaylist`: the uris the playlist is rewritten with, or `None` when nothing is
   * written. No playlist, a null `item` (a NullPointerException the method catches), an empty
   * playlist and a playlist without a placeable track all leave it untouched; a playing track's uri
   * is moved, or added, to the top.
   */
  function UpdateJukeboxPlaylist(playlistId: Option<string>, nowPlaying: NowPlaying, tracks: seq<Track>,
                                 votes: map<string, nat>, cooldown: seq<string>): (r: Option<seq<string>>)
    ensures r.Some? <==> !NoPlaylist(playlistId) && nowPlaying != NullItem && exists t :: t in tracks && Placeable(t)
    ensures r.Some? ==> |r.value| > 0
    ensures r.Some? && nowPlaying.Item? && nowPlaying.uri.Some? ==>
      var u := nowPlaying.uri.value;
      r.value[0] == u && Filter(r.value, NotUri(u)) == Filter(SortPlaylistByVotes(tracks, votes, cooldown), NotUri(u))
    ensures r.Some? && nowPlaying.Item? && nowPlaying.uri.Some? ==>
      r.value == Pin(SortPlaylistByVotes(tracks, votes, cooldown), nowPlaying.uri.value)
    ensures r.Some? && !(nowPlaying.Item? && nowPlaying.uri.Some?) ==> r.value == SortPlaylistByVotes(tracks, votes, cooldown)
  {
    if NoPlaylist(playlistId) || nowPlaying.NullItem? || |tracks| == 0 then None
    else
      var ordered := SortPlaylistByVotes(tracks, votes, cooldown);
      AnyPlaceable(tracks);
      if |ordered| == 0 then None
      else if nowPlaying.Item? && nowPlaying.uri.Some? then Some(Pin(ordered, nowPlaying.uri.value))
        else Some(ordered)
  }

  lemma AnyPlaceable(tracks: seq<Track>)
    ensures |Filter(tracks, Placeable)| > 0 <==> exists t :: t in tracks && Placeable(t)
  {
    FilterMembers(tracks, Placeable);
    if |Filter(tracks, Placeable)| > 0 {
      assert Filter(tracks, Placeable)[0] in Filter(tracks, Placeable);
    }
  }

  /**
   * The rewritten playlist with a playing track: every placeable track's uri once, the playing uri
   * included, and the playing uri once more only when no placeable track carries it.
   */
  lemma PinnedPlaylistUris(playlistId: Option<string>, nowPlaying: NowPlaying, tracks: seq<Track>,
                           votes: map<string, nat>, cooldown: seq<string>)
    requires nowPlaying.Item? && nowPlaying.uri.Some?
    requires UpdateJukeboxPlaylist(playlistId, nowPlaying, tracks, votes, cooldown).Some?
    ensures var r := UpdateJukeboxPlaylist(playlistId, nowPlaying, tracks, votes, cooldown).value;
            var u := nowPlaying.uri.value;
            multiset(r) == multiset(Uris(Filter(tracks, Placeable)))
                           + (if exists t :: t in tracks && Placeable(t) && t.uri == Some(u) then multiset{} else multiset{u})
  {
    var u := nowPlaying.uri.value;
    var ordered := SortPlaylistByVotes(tracks, votes, cooldown);
    assert u in ordered <==> exists t :: t in tracks && Placeable(t) && t.uri == Some(u);
    assert multiset(Pin(ordered, u)) == if u in ordered then multiset(ordered) else multiset(ordered) + multiset{u};
  }

  /** Spotify's limit of tracks per playlist request. */
  const BatchSize: nat := 100

  datatype HttpMethod = Put | Post

  /** One playlist request: PUT replaces the tracks, POST appends. */
  datatype Request = Request(verb: HttpMethod, batch: seq<string>)

  /** The uris a plan of requests leaves in the playlist, in order. */
  function Flatten(plan: seq<Request>): seq<string> {
    if |plan| == 0 then [] else Flatten(plan[..|plan| - 1]) + plan[|plan| - 1].batch
  }

  /**
   * `replacePlaylistTracks`: the requests sent for a new track list, a PUT with the first hundred uris
   * and a POST with each further hundred; together they write exactly `uris`.
   */
  method ReplacePlaylistTracks(uris: seq<string>) returns (plan: seq<Request>)
    ensures Flatten(plan) == uris
    ensures |plan| == (|uris| + BatchSize - 1) / BatchSize
    ensures forall k :: 0 <= k < |plan| ==> plan[k].verb == if k == 0 then Put else Post
    ensures forall k :: 0 <= k < |plan| ==> 0 < |plan[k].batch| <= BatchSize
    ensures forall k :: 0 <= k < |plan| - 1 ==> |plan[k].batch| == BatchSize
  {
    plan := [];
    var i := 0;
    while i < |uris|
      invariant i == BatchSize * |plan|
      invariant |plan| > 0 ==> BatchSize * (|plan| - 1) < |uris|
      invariant Flatten(plan) == uris[..if i < |uris| then i else |uris|]
      invariant forall k :: 0 <= k < |plan| ==> plan[k].verb == if k == 0 then Put else Post
      invariant forall k :: 0 <= k < |plan| ==> 0 < |plan[k].batch| <= BatchSize
      invariant forall k :: 0 <= k < |plan| - 1 ==> |plan[k].batch| == BatchSize
      invariant |plan| > 0 && i < |uris| ==> |plan[|plan| - 1].batch| == BatchSize
      decreases |uris| - i
    {
      var end := if i + BatchSize < |uris| then i + BatchSize else |uris|;
      var request := Request(if i == 0 then Put else Post, uris[i..end]);
      assert (plan + [request])[..|plan|] == plan;
      assert uris[..end] == uris[..i] + uris[i..end];
      plan := plan + [request];
      i := i + BatchSize;
    }
  }
}

/**
 * The per-owner play history kept in a Redis list (`jukebox:history:<owner>`), newest first,
 * and the track-count cooldown computed from it. Each function works on one owner's list.
 */
module PlayHistory {
  import opened Seqs

  /** The list is trimmed to this many entries (`LTRIM 0 9`). */
  const HistoryLimit: nat := 10

  /** How many of the newest entries count as in cooldown. */
  const CooldownWindow: nat := 3

  /** `getRecentlyPlayedTrackIds` with its only limit, 3: the newest entries (`LRANGE 0 2`). */
  function RecentlyPlayed(history: seq<string>): (r: seq<string>)
    ensures |r| <= CooldownWindow
    ensures |r| == |history| || |r| == CooldownWindow
    ensures |r| <= |history|
    ensures forall i :: 0 <= i < |r| ==> r[i] == history[i]
  {
    Take(history, CooldownWindow)
  }

  /**
   * `getCooldownRemaining`: how many more tracks must play before `track` leaves the cooldown;
   * 0 when it is not among the newest three, otherwise 3 minus its first position.
   */
  function CooldownRemaining(history: seq<string>, track: string): (r: nat)
    ensures r <= CooldownWindow
    ensures r == 0 <==> track !in RecentlyPlayed(history)
    ensures r > 0 ==> CooldownWindow - r < |history| && history[CooldownWindow - r] == track && track !in history[..CooldownWindow - r]
  {
    var recent := RecentlyPlayed(history);
    var position := IndexOf(recent, track);
    if position == -1 then 0
    else
      assert recent[..position] == history[..position];
      CooldownWindow - position
  }

  /** `isInCooldown`: the track is among the three newest history entries. */
  predicate IsInCooldown(history: seq<string>, track: string)
  {
    CooldownRemaining(history, track) > 0
  }

  lemma IsInCooldownMeans(history: seq<string>, track: string)
    ensures IsInCooldown(history, track) <==> exists i :: 0 <= i < |history| && i < CooldownWindow && history[i] == track
  {
    var recent := RecentlyPlayed(history);
    if exists i :: 0 <= i < |history| && i < CooldownWindow && history[i] == track {
      var i :| 0 <= i < |history| && i < CooldownWindow && history[i] == track;
      assert recent[i] == track;
    }
  }

  /**
   * `addToPlayHistory`: nothing changes when the track is already the newest entry; otherwise it is
   * pushed to the front and the list is cut to ten entries.
   */
  function AddToPlayHistory(history: seq<string>, track: string): (r: seq<string>)
    ensures |history| <= HistoryLimit ==> |r| <= HistoryLimit
    ensures |r| > 0 && r[0] == track
    ensures |history| > 0 && history[0] == track ==> r == history
    ensures !(|history| > 0 && history[0] == track) ==>
              |r| == (if |history| < HistoryLimit then |history| + 1 else HistoryLimit)
              && forall i :: 0 < i < |r| ==> r[i] == history[i - 1]
  {
    if |history| > 0 && history[0] == track then history
    else Take([track] + history, HistoryLimit)
  }

  /** The history after the given tracks are reported played one after another. */
  function PlayAll(history: seq<string>, tracks: seq<string>): seq<string>
  {
    if |tracks| == 0 then history
    else AddToPlayHistory(PlayAll(history, tracks[..|tracks| - 1]), tracks[|tracks| - 1])
  }

  /** Consecutive tracks differ, so every report actually pushes an entry. */
  predicate NoRepeats(tracks: seq<string>) {
    forall i :: 0 < i < |tracks| ==> tracks[i] != tracks[i - 1]
  }

  /** Where `track` sits after `others` were played following it. */
  lemma {:induction false} PositionAfterPlays(start: seq<string>, track: string, others: seq<string>)
    requires forall i :: 0 <= i < |others| ==> others[i] != track
    requires NoRepeats(others)
    ensures var h := PlayAll(AddToPlayHistory(start, track), others);
      && (|others| < HistoryLimit ==> |others| < |h| && h[|others|] == track)
      && (forall i :: 0 <= i < |others| && i < |h| ==> h[i] != track)
      && (|others| > 0 ==> |h| > 0 && h[0] == others[|others| - 1])
  {
    if |others| > 0 {
      var before := others[..|others| - 1];
      var x := others[|others| - 1];
      PositionAfterPlays(start, track, before);
      var h := PlayAll(AddToPlayHistory(start, track), before);
      assert |h| > 0 && h[0] != x by {
        if |before| > 0 {
          assert h[0] == others[|others| - 2];
        }
      }
      var h' := AddToPlayHistory(h, x);
      assert PlayAll(AddToPlayHistory(start, track), others) == h';
      forall i | 0 <= i < |others| && i < |h'| ensures h'[i] != track {
        if i > 0 {
          assert h'[i] == h[i - 1];
        }
      }
    }
  }

  /**
   * The cooldown ages with each newly played track: after `k` other tracks follow `track`,
   * `max(0, 3 - k)` more must play before it leaves the cooldown.
   */
  lemma CooldownAfterPlays(start: seq<string>, track: string, others: seq<string>)
    requires forall i :: 0 <= i < |others| ==> others[i] != track
    requires NoRepeats(others)
    ensures CooldownRemaining(PlayAll(AddToPlayHistory(start, track), others), track)
            == if |others| < CooldownWindow then CooldownWindow - |others| else 0
  {
    var h := PlayAll(AddToPlayHistory(start, track), others);
    PositionAfterPlays(start, track, others);
    var recent := RecentlyPlayed(h);
    if |others| < CooldownWindow {
      assert recent[|others|] == track;
      assert track !in recent[..|others|];
      assert IndexOf(recent, track) == |others|;
    } else {
      assert track !in recent;
    }
  }
}

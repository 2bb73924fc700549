/**
 * `UserService` over the `user_info` table: the upsert of a user keyed by email, and the lookups by
 * Spotify user id. The table is a sequence of rows and the next identity value; the unique index on
 * `spotify_user_id` makes a save that would duplicate one fail, leaving the table as it was.
 */
module UserService {
  import opened Wrappers
  import opened UserModel
  import opened UserMapping

  /** The rows of `user_info` and the next value of its identity column. */
  datatype UserStore = UserStore(rows: seq<UserInfo>, nextId: nat)

  datatype UserError =
    | NonUniqueEmail          // `findByEmail` matched more than one row
    | DuplicateSpotifyUserId  // the unique index on `spotify_user_id` rejected the save
    | NotFound                // `findBySpotifyUserId(...).orElseThrow`

  /** The saved user together with the table after the save. */
  datatype Saved = Saved(store: UserStore, user: UserInfo)

  /** No two rows share an email; `findByEmail` is only well defined on such a table. */
  predicate UniqueEmails(rows: seq<UserInfo>) {
    forall i, j :: 0 <= i < j < |rows| ==> rows[i].email != rows[j].email
  }

  /** What the unique index on `spotify_user_id` guarantees. */
  predicate UniqueSpotifyUserIds(rows: seq<UserInfo>) {
    forall i, j :: 0 <= i < j < |rows| ==> rows[i].spotifyUserId != rows[j].spotifyUserId
  }

  /** The positions of the rows with the given email (a null email matches the rows whose email is null). */
  function EmailMatches(rows: seq<UserInfo>, email: Option<string>): (r: seq<nat>)
    ensures forall k :: 0 <= k < |r| ==> r[k] < |rows| && rows[r[k]].email == email
    ensures forall i :: 0 <= i < |rows| && rows[i].email == email ==> i in r
    ensures forall k, l :: 0 <= k < l < |r| ==> r[k] < r[l]
  {
    if |rows| == 0 then []
    else
      var init := EmailMatches(rows[..|rows| - 1], email);
      if rows[|rows| - 1].email == email then init + [|rows| - 1] else init
  }

  /** `findByEmail`: the position of the row with that email, none, or an error when several match. */
  function FindByEmail(rows: seq<UserInfo>, email: Option<string>): (r: Result<Option<nat>, UserError>)
    ensures r.Failure? <==> exists i, j :: 0 <= i < j < |rows| && rows[i].email == email && rows[j].email == email
    ensures r == Success(None) <==> forall i :: 0 <= i < |rows| ==> rows[i].email != email
    ensures r.Success? && r.value.Some? ==> r.value.value < |rows| && rows[r.value.value].email == email
  {
    var matches := EmailMatches(rows, email);
    assert forall i, j :: 0 <= i < j < |rows| && rows[i].email == email && rows[j].email == email ==> |matches| >= 2 by {
      forall i, j | 0 <= i < j < |rows| && rows[i].email == email && rows[j].email == email ensures |matches| >= 2 {
        TwoMatches(rows, email, i, j);
      }
    }
    if |matches| == 0 then Success(None)
    else if |matches| == 1 then Success(Some(matches[0]))
    else
      assert matches[0] < matches[1];
      Failure(NonUniqueEmail)
  }

  lemma TwoMatches(rows: seq<UserInfo>, email: Option<string>, i: nat, j: nat)
    requires i < j < |rows| && rows[i].email == email && rows[j].email == email
    ensures |EmailMatches(rows, email)| >= 2
  {
    var r := EmailMatches(rows, email);
    var a :| 0 <= a < |r| && r[a] == i;
    var b :| 0 <= b < |r| && r[b] == j;
    assert a != b;
  }

  /** With no duplicate email, the row found by email is the only row with that email. */
  lemma OnlyMatch(rows: seq<UserInfo>, email: Option<string>, k: nat)
    requires FindByEmail(rows, email) == Success(Some(k))
    ensures k < |rows| && forall j :: 0 <= j < |rows| ==> (rows[j].email == email <==> j == k)
  {
  }

  /** Some row other than the one at `skip` (or any row, when `skip` is -1) has that Spotify user id. */
  predicate IdTakenElsewhere(rows: seq<UserInfo>, userId: Option<string>, skip: int) {
    exists j :: 0 <= j < |rows| && j != skip && rows[j].spotifyUserId == userId
  }

  /**
   * `persistOrUpdate`: the row with the request's email is overwritten by the mapper and its
   * `updatedAt` set to `now`; without such a row a new one is inserted, seeded with the request's
   * user id and email, mapped, and stamped with a fresh id and `createdAt = updatedAt = now`.
   * The save fails when the Spotify user id is taken by another row.
   */
  function PersistOrUpdate(store: UserStore, request: TokenRequest, now: int): (r: Result<Saved, UserError>)
    ensures r == Failure(NonUniqueEmail) <==>
              exists i, j :: 0 <= i < j < |store.rows| && store.rows[i].email == request.email && store.rows[j].email == request.email
    ensures r.Success? ==> r.value.user in r.value.store.rows
    ensures r.Success? ==> r.value.user == UpdateEntity(r.value.user, request) && r.value.user.updatedAt == Some(now)
    ensures r.Success? && (exists i :: 0 <= i < |store.rows| && store.rows[i].email == request.email) ==>
              && |r.value.store.rows| == |store.rows|
              && r.value.store.nextId == store.nextId
              && exists k :: 0 <= k < |store.rows| && store.rows[k].email == request.email
                   && r.value.store.rows == store.rows[k := r.value.user]
                   && r.value.user.id == store.rows[k].id && r.value.user.createdAt == store.rows[k].createdAt
                   && r.value.user.expiresIn == store.rows[k].expiresIn
                   && r.value.user.jukeboxPlaylistId == store.rows[k].jukeboxPlaylistId
    ensures r.Success? && (forall i :: 0 <= i < |store.rows| ==> store.rows[i].email != request.email) ==>
              && r.value.store.rows == store.rows + [r.value.user]
              && r.value.store.nextId == store.nextId + 1
              && r.value.user.id == Some(store.nextId) && r.value.user.createdAt == Some(now)
              && r.value.user.expiresIn == None && r.value.user.jukeboxPlaylistId == None
    ensures r.Failure? ==> r == Failure(NonUniqueEmail) || r == Failure(DuplicateSpotifyUserId)
    ensures r == Failure(DuplicateSpotifyUserId) <==>
              && (forall i, j :: 0 <= i < j < |store.rows| ==> !(store.rows[i].email == request.email && store.rows[j].email == request.email))
              && exists j :: 0 <= j < |store.rows| && store.rows[j].spotifyUserId == request.userId && store.rows[j].email != request.email
  {
    match FindByEmail(store.rows, request.email)
    case Failure(e) => Failure(e)
    case Success(Some(k)) =>
      OnlyMatch(store.rows, request.email, k);
      if IdTakenElsewhere(store.rows, request.userId, k) then Failure(DuplicateSpotifyUserId)
      else
        var saved := UpdateEntity(store.rows[k], request).(updatedAt := Some(now));
        var rows := store.rows[k := saved];
        assert forall j :: 0 <= j < |rows| && j != k ==> rows[j] == store.rows[j];
        assert rows[k] == saved;
        Success(Saved(UserStore(rows, store.nextId), saved))
    case Success(None) =>
      if IdTakenElsewhere(store.rows, request.userId, -1) then Failure(DuplicateSpotifyUserId)
      else
        var seed := UserInfo(None, request.userId, request.email, None, None, None, None, None, None, None, None);
        var saved := UpdateEntity(seed, request).(id := Some(store.nextId), createdAt := Some(now), updatedAt := Some(now));
        var rows := store.rows + [saved];
        assert rows[|store.rows|] == saved;
        Success(Saved(UserStore(rows, store.nextId + 1), saved))
  }

  /** A save keeps the table's emails and Spotify user ids unique. */
  lemma PersistKeepsUnique(store: UserStore, request: TokenRequest, now: int)
    requires PersistOrUpdate(store, request, now).Success?
    ensures UniqueSpotifyUserIds(store.rows) ==> UniqueSpotifyUserIds(PersistOrUpdate(store, request, now).value.store.rows)
    ensures UniqueEmails(store.rows) ==> UniqueEmails(PersistOrUpdate(store, request, now).value.store.rows)
  {
  }

  /** Where a successful save put the user: the only row with the request's email, and no other row has its Spotify user id. */
  lemma SavedPosition(store: UserStore, request: TokenRequest, now: int) returns (k: nat)
    requires PersistOrUpdate(store, request, now).Success?
    ensures var once := PersistOrUpdate(store, request, now).value;
      && k < |once.store.rows| && once.store.rows[k] == once.user
      && (forall j :: 0 <= j < |once.store.rows| ==> (once.store.rows[j].email == request.email <==> j == k))
      && !IdTakenElsewhere(once.store.rows, request.userId, k)
  {
    var once := PersistOrUpdate(store, request, now).value;
    var rows := once.store.rows;
    match FindByEmail(store.rows, request.email) {
      case Success(Some(k0)) =>
        k := k0;
        assert rows == store.rows[k0 := once.user];
        assert !IdTakenElsewhere(store.rows, request.userId, k0);
      case Success(None) =>
        k := |store.rows|;
        assert rows == store.rows + [once.user];
        assert !IdTakenElsewhere(store.rows, request.userId, -1);
    }
    assert forall j :: 0 <= j < |rows| && j != k ==> rows[j] == store.rows[j];
  }

  /** Persisting the same request twice at the same instant leaves the table as persisting it once. */
  lemma PersistTwice(store: UserStore, request: TokenRequest, now: int)
    requires PersistOrUpdate(store, request, now).Success?
    ensures var once := PersistOrUpdate(store, request, now).value;
      PersistOrUpdate(once.store, request, now) == Success(once)
  {
    var once := PersistOrUpdate(store, request, now).value;
    var rows := once.store.rows;
    var k := SavedPosition(store, request, now);
    assert FindByEmail(rows, request.email) == Success(Some(k));
    assert UpdateEntity(rows[k], request).(updatedAt := Some(now)) == once.user;
    assert rows[k := once.user] == rows;
  }

  /** `findBySpotifyUserId`: the first row with that Spotify user id. */
  function FindRow(rows: seq<UserInfo>, userId: Option<string>): (r: Option<UserInfo>)
    ensures r.Some? ==> r.value in rows && r.value.spotifyUserId == userId
    ensures r.None? <==> forall i :: 0 <= i < |rows| ==> rows[i].spotifyUserId != userId
  {
    if |rows| == 0 then None
    else if rows[0].spotifyUserId == userId then Some(rows[0])
    else
      var r := FindRow(rows[1..], userId);
      assert forall i :: 1 <= i < |rows| ==> rows[i] == rows[1..][i - 1];
      r
  }

  /** `getById`: the user with that Spotify user id, or null. */
  function GetById(store: UserStore, userId: Option<string>): (r: Option<UserInfo>)
    ensures r.Some? ==> r.value in store.rows && r.value.spotifyUserId == userId
    ensures r.None? <==> forall i :: 0 <= i < |store.rows| ==> store.rows[i].spotifyUserId != userId
  {
    FindRow(store.rows, userId)
  }

  /** `findBySpotifyUserId`: the user with that Spotify user id, or a `NotFound` failure. */
  function FindBySpotifyUserId(store: UserStore, userId: Option<string>): (r: Result<UserInfo, UserError>)
    ensures r.Success? ==> r.value in store.rows && r.value.spotifyUserId == userId
    ensures r.Failure? <==> forall i :: 0 <= i < |store.rows| ==> store.rows[i].spotifyUserId != userId
    ensures r.Failure? ==> r.error == NotFound
  {
    match FindRow(store.rows, userId)
    case Some(u) => Success(u)
    case None => Failure(NotFound)
  }

  /** The two lookups agree: null where one fails, the same user where the other succeeds. */
  lemma LookupsAgree(store: UserStore, userId: Option<string>)
    ensures GetById(store, userId).None? <==> FindBySpotifyUserId(store, userId).Failure?
    ensures GetById(store, userId).Some? ==> FindBySpotifyUserId(store, userId) == Success(GetById(store, userId).value)
  {
  }

  /** After a successful save, looking the user up by its Spotify id finds the saved user. */
  lemma PersistThenGet(store: UserStore, request: TokenRequest, now: int)
    requires PersistOrUpdate(store, request, now).Success?
    ensures var saved := PersistOrUpdate(store, request, now).value;
      GetById(saved.store, request.userId) == Some(saved.user)
  {
    var saved := PersistOrUpdate(store, request, now).value;
    var rows := saved.store.rows;
    var k := SavedPosition(store, request, now);
    var found := GetById(saved.store, request.userId);
    var m :| 0 <= m < |rows| && rows[m] == found.value;
  }

  /**
   * `findAllActiveJukeboxUsers`: every stored user, also those without a Jukebox playlist id
   * (the repository's `findByJukeboxPlaylistIdIsNotNull` is not used).
   */
  function FindAllActiveJukeboxUsers(store: UserStore): (r: seq<UserInfo>)
    ensures |r| == |store.rows| && forall i :: 0 <= i < |r| ==> r[i] == store.rows[i]
  {
    store.rows
  }
}

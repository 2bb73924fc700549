/**
 * The user records: the token request a client posts after the OAuth login, and the stored
 * `UserInfo` entity. Every reference field of the Java types may be null, which is `None` here;
 * timestamps are integer seconds.
 */
module UserModel {
  import opened Wrappers

  /** `TokenPersistingRequest`. */
  datatype TokenRequest = TokenRequest(
    userId: Option<string>,
    accessToken: Option<string>,
    refreshToken: Option<string>,
    email: Option<string>,
    displayName: Option<string>,
    scopes: Option<set<string>>)

  /** `UserInfo`; `id` is assigned by the database on insert. */
  datatype UserInfo = UserInfo(
    id: Option<nat>,
    spotifyUserId: Option<string>,
    email: Option<string>,
    displayName: Option<string>,
    accessToken: Option<string>,
    refreshToken: Option<string>,
    createdAt: Option<int>,
    updatedAt: Option<int>,
    expiresIn: Option<int>,
    jukeboxPlaylistId: Option<string>,
    scopes: Option<set<string>>)
}

/** `UserMapper.updateEntity`: copies the token request onto a stored user. */
module UserMapping {
  import opened Wrappers
  import opened UserModel

  /**
   * Overwrites the Spotify user id, both tokens, the email and the display name with the request's
   * values, null included, and the scopes with the request's scopes or the empty set when those are
   * null; every other field is kept.
   */
  function UpdateEntity(entity: UserInfo, request: TokenRequest): (r: UserInfo)
    ensures r.spotifyUserId == request.userId && r.accessToken == request.accessToken
    ensures r.refreshToken == request.refreshToken && r.email == request.email
    ensures r.displayName == request.displayName
    ensures r.scopes == if request.scopes.Some? then request.scopes else Some({})
    ensures r.id == entity.id && r.createdAt == entity.createdAt && r.updatedAt == entity.updatedAt
    ensures r.expiresIn == entity.expiresIn && r.jukeboxPlaylistId == entity.jukeboxPlaylistId
  {
    entity.(spotifyUserId := request.userId, accessToken := request.accessToken,
            refreshToken := request.refreshToken, email := request.email, displayName := request.displayName,
            scopes := if request.scopes.Some? then request.scopes else Some({}))
  }

  /** Mapping the same request twice is mapping it once. */
  lemma UpdateEntityIdempotent(entity: UserInfo, request: TokenRequest)
    ensures UpdateEntity(UpdateEntity(entity, request), request) == UpdateEntity(entity, request)
  {
  }

  /** The overwritten fields of the entity do not matter: only its kept fields reach the result. */
  lemma UpdateEntityForgets(a: UserInfo, b: UserInfo, request: TokenRequest)
    requires a.id == b.id && a.createdAt == b.createdAt && a.updatedAt == b.updatedAt
    requires a.expiresIn == b.expiresIn && a.jukeboxPlaylistId == b.jukeboxPlaylistId
    ensures UpdateEntity(a, request) == UpdateEntity(b, request)
  {
  }
}

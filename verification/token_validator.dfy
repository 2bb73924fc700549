/** `TokenPersistRequestValidator`: the required-field checks on a token request, in order. */
module TokenValidation {
  import opened Wrappers
  import opened UserModel

  /** `String.trim` strips every character up to U+0020 from both ends. */
  predicate TrimmedChar(c: char) {
    c <= ' '
  }

  function TrimStart(s: string): (r: string)
    ensures |r| <= |s| && r == s[|s| - |r|..]
    ensures |r| > 0 ==> !TrimmedChar(r[0])
    ensures forall k :: 0 <= k < |s| - |r| ==> TrimmedChar(s[k])
  {
    if |s| > 0 && TrimmedChar(s[0]) then TrimStart(s[1..]) else s
  }

  function TrimEnd(s: string): (r: string)
    ensures |r| <= |s| && r == s[..|r|]
    ensures |r| > 0 ==> !TrimmedChar(r[|r| - 1])
    ensures forall k :: |r| <= k < |s| ==> TrimmedChar(s[k])
  {
    if |s| > 0 && TrimmedChar(s[|s| - 1]) then TrimEnd(s[..|s| - 1]) else s
  }

  /** `s[i..j]` is what is left after cutting only trimmed characters off both ends of `s`. */
  predicate CutsOnlyTrimmed(s: string, i: int, j: int) {
    && 0 <= i <= j <= |s|
    && (forall k :: 0 <= k < i ==> TrimmedChar(s[k]))
    && (forall k :: j <= k < |s| ==> TrimmedChar(s[k]))
  }

  /** `String.trim`. */
  function Trim(s: string): (r: string)
    ensures |r| > 0 ==> !TrimmedChar(r[0]) && !TrimmedChar(r[|r| - 1])
    ensures exists i, j :: CutsOnlyTrimmed(s, i, j) && r == s[i..j]
  {
    var t := TrimStart(s);
    var r := TrimEnd(t);
    var i, j := |s| - |t|, |s| - |t| + |r|;
    assert r == s[i..j];
    assert CutsOnlyTrimmed(s, i, j) by {
      forall k | j <= k < |s| ensures TrimmedChar(s[k]) {
        assert s[k] == t[k - i];
      }
    }
    r
  }

  /** `isBlank`: null, or empty after trimming. */
  predicate IsBlank(value: Option<string>) {
    value.None? || |Trim(value.value)| == 0
  }

  /** A string is blank exactly when every character is one `trim` removes. */
  lemma IsBlankMeans(s: string)
    ensures IsBlank(Some(s)) <==> forall k :: 0 <= k < |s| ==> TrimmedChar(s[k])
  {
    var t := TrimStart(s);
    if |t| > 0 {
      assert !TrimmedChar(s[|s| - |t|]);
    }
  }

  datatype ValidationError = NullRequest | MissingUserId | MissingAccessToken | MissingRefreshToken

  /**
   * `validate`: a null request, then a blank `userId`, a blank `accessToken` and a blank
   * `refreshToken` are rejected, the first failing check deciding the error.
   */
  function Validate(request: Option<TokenRequest>): (r: Outcome<ValidationError>)
    ensures r == Fail(NullRequest) <==> request.None?
    ensures r == Fail(MissingUserId) <==> request.Some? && IsBlank(request.value.userId)
    ensures r == Fail(MissingAccessToken) <==>
              request.Some? && !IsBlank(request.value.userId) && IsBlank(request.value.accessToken)
    ensures r == Fail(MissingRefreshToken) <==>
              request.Some? && !IsBlank(request.value.userId) && !IsBlank(request.value.accessToken)
              && IsBlank(request.value.refreshToken)
    ensures r.Pass? <==>
              request.Some? && !IsBlank(request.value.userId) && !IsBlank(request.value.accessToken)
              && !IsBlank(request.value.refreshToken)
  {
    if request.None? then Fail(NullRequest)
    else if IsBlank(request.value.userId) then Fail(MissingUserId)
    else if IsBlank(request.value.accessToken) then Fail(MissingAccessToken)
    else if IsBlank(request.value.refreshToken) then Fail(MissingRefreshToken)
    else Pass
  }

  /** The email, the display name and the scopes play no part in validation. */
  lemma ValidateIgnoresProfile(request: TokenRequest, email: Option<string>, displayName: Option<string>, scopes: Option<set<string>>)
    ensures Validate(Some(request.(email := email, displayName := displayName, scopes := scopes))) == Validate(Some(request))
  {
  }

  /** A request with a token field made of spaces alone is rejected. */
  lemma SpacesAreBlank(request: TokenRequest, n: nat)
    requires !IsBlank(request.userId)
    ensures Validate(Some(request.(accessToken := Some(seq(n, _ => ' '))))) == Fail(MissingAccessToken)
  {
    IsBlankMeans(seq(n, _ => ' '));
  }
}

/**
 * Application constants and the part of the application settings the core
 * reads. Time is counted in whole seconds throughout the model.
 */
module Settings {

  /** Maximum number of non-expired refresh sessions one user may keep. */
  const MaxActiveRefreshSessions: nat := 5

  /** Cookie names of the two authentication cookies. */
  const AuthAccessTokenKey: string := "psg_access_token"
  const AuthRefreshTokenKey: string := "psg_refresh_token"

  const SecondsPerMinute: int := 60
  const SecondsPerDay: int := 86400

  /**
   * `MODE` is the deployment mode string ("PROD", "STAGE", "DEV", ...);
   * the two TTLs are the configured access-token minutes and refresh-token days.
   */
  datatype AppSettings = AppSettings(mode: string, accessTokenExpireMinutes: int, refreshTokenExpireDays: int)
  {
    /** Lifetime of an access token, in seconds. */
    function AccessTtl(): int {
      accessTokenExpireMinutes * SecondsPerMinute
    }

    /** Lifetime of a refresh session, in seconds. */
    function RefreshTtl(): int {
      refreshTokenExpireDays * SecondsPerDay
    }

    /** `expires_at` of a refresh session issued or rotated at `now`. */
    function RefreshExpiry(now: int): (t: int)
      ensures t - now == refreshTokenExpireDays * 86400
    {
      now + RefreshTtl()
    }
  }
}

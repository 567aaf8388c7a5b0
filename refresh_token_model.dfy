/** The `refresh_tokens` row. */
module RefreshTokenModel {
  import opened Crypto

  /** A stored refresh token of a user; `token` is unique across the table. */
  datatype RefreshToken = RefreshToken(userId: int, token: Jwt, expiresAt: int)
}

/** The one-time-code schema: at most one record per email. */
module OtpModel {

  /** Default of the `expireTime` field, in minutes. */
  const DefaultExpireTimeMinutes: nat := 10

  /** Lifetime of a code, in milliseconds (10 minutes). */
  const OtpLifetimeMs: int := 10 * 60 * 1000

  /** An OTP document. Times are milliseconds since the epoch. */
  datatype OtpRecord = OtpRecord(
    email: string,
    otp: string,
    otpVerify: bool,
    createdAt: int,
    expireTime: nat,
    expiresAt: int)

  /** A record created at time `now` with the given code: `otpVerify`,
      `createdAt`, `expireTime` and `expiresAt` take their schema defaults. */
  function NewOtpRecord(email: string, otp: string, now: int): (r: OtpRecord)
    ensures r.email == email && r.otp == otp
    ensures !r.otpVerify
    ensures r.createdAt == now && r.expiresAt == now + OtpLifetimeMs
    ensures r.expireTime == DefaultExpireTimeMinutes
    ensures r.expiresAt - r.createdAt == r.expireTime * 60 * 1000
  {
    OtpRecord(email, otp, false, now, DefaultExpireTimeMinutes, now + OtpLifetimeMs)
  }
}

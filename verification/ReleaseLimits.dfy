/** The bound that the release tool sets for one file, read from disk or out of an archive. */
module ReleaseLimits {
  const MAX_MEMBER_BYTES := 1024 * 1024 * 1024
}

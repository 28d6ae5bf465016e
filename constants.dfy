/** Upload and session limits shared by the services and the loader. */
module Constants {

  const MaxFilesPerSession: nat := 5
  const MaxFileSizeMb: nat := 10
  const MaxFileSizeBytes: nat := MaxFileSizeMb * 1024 * 1024

  /** The accepted file suffixes, already lower-case. */
  const AllowedExtensions: set<string> := {".pdf", ".docx", ".txt", ".md"}

  const SessionExpiryHours: nat := 24

  /** Session lifetime on the clock the session table is given: microseconds. */
  const SessionLifetime: nat := SessionExpiryHours * 60 * 60 * 1000000
}

/**
 * The saver's settings, read from the environment with their defaults, and
 * the three checks it makes before any network activity.
 */
module Config {
  import opened Wrappers

  datatype Settings = Settings(
    gtfsUrl: string,
    agencyId: string,
    endpointUrl: string,
    accessKeyId: string,
    secretAccessKey: string,
    bucketName: string,
    region: string)

  /** `os.environ.get(name, default)` */
  function Getenv(env: map<string, string>, name: string, default: string): string {
    if name in env then env[name] else default
  }

  /** The module-level settings: each variable's value when set, else its default. */
  function LoadConfig(env: map<string, string>): (c: Settings)
    ensures "GTFS_URL" in env ==> c.gtfsUrl == env["GTFS_URL"]
    ensures "GTFS_URL" !in env ==> c.gtfsUrl == ""
    ensures "AGENCY_ID" in env ==> c.agencyId == env["AGENCY_ID"]
    ensures "AGENCY_ID" !in env ==> c.agencyId == "1"
    ensures "S3_ENDPOINT_URL" in env ==> c.endpointUrl == env["S3_ENDPOINT_URL"]
    ensures "S3_ENDPOINT_URL" !in env ==> c.endpointUrl == ""
    ensures "S3_ACCESS_KEY_ID" in env ==> c.accessKeyId == env["S3_ACCESS_KEY_ID"]
    ensures "S3_ACCESS_KEY_ID" !in env ==> c.accessKeyId == ""
    ensures "S3_SECRET_ACCESS_KEY" in env ==> c.secretAccessKey == env["S3_SECRET_ACCESS_KEY"]
    ensures "S3_SECRET_ACCESS_KEY" !in env ==> c.secretAccessKey == ""
    ensures "S3_BUCKET_NAME" in env ==> c.bucketName == env["S3_BUCKET_NAME"]
    ensures "S3_BUCKET_NAME" !in env ==> c.bucketName == ""
    ensures "S3_REGION" in env ==> c.region == env["S3_REGION"]
    ensures "S3_REGION" !in env ==> c.region == "us-east-1"
  {
    Settings(
      Getenv(env, "GTFS_URL", ""),
      Getenv(env, "AGENCY_ID", "1"),
      Getenv(env, "S3_ENDPOINT_URL", ""),
      Getenv(env, "S3_ACCESS_KEY_ID", ""),
      Getenv(env, "S3_SECRET_ACCESS_KEY", ""),
      Getenv(env, "S3_BUCKET_NAME", ""),
      Getenv(env, "S3_REGION", "us-east-1"))
  }

  datatype Problem = MissingBucket | MissingCredentials | MissingUrl

  /** A custom endpoint needs both halves of an explicit credential. */
  predicate CredentialsComplete(c: Settings) {
    c.endpointUrl != "" ==> c.accessKeyId != "" && c.secretAccessKey != ""
  }

  /**
   * The checks in the order the saver makes them; the first that fails is
   * reported. An empty string counts as unset, as Python's truthiness does.
   */
  function Validate(c: Settings): (r: Option<Problem>)
    ensures r.None? <==> c.bucketName != "" && CredentialsComplete(c) && c.gtfsUrl != ""
    ensures r == Some(MissingBucket) <==> c.bucketName == ""
    ensures r == Some(MissingCredentials) <==> c.bucketName != "" && !CredentialsComplete(c)
    ensures r == Some(MissingUrl) <==> c.bucketName != "" && CredentialsComplete(c) && c.gtfsUrl == ""
  {
    if c.bucketName == "" then Some(MissingBucket)
    else if c.endpointUrl != "" && !(c.accessKeyId != "" && c.secretAccessKey != "") then Some(MissingCredentials)
    else if c.gtfsUrl == "" then Some(MissingUrl)
    else None
  }

  /**
   * Without a custom endpoint (unset or empty) the credentials are optional:
   * the default credential chain is used.
   */
  lemma NoEndpointNeedsNoCredentials(env: map<string, string>)
    requires Getenv(env, "S3_ENDPOINT_URL", "") == ""
    requires Getenv(env, "S3_BUCKET_NAME", "") != "" && Getenv(env, "GTFS_URL", "") != ""
    ensures Validate(LoadConfig(env)).None?
  {
  }

  /**
   * Whatever else is set, an environment whose bucket variable is unset or
   * empty is rejected for the missing bucket, before the other checks.
   */
  lemma UnsetBucketRejectedFirst(env: map<string, string>)
    requires "S3_BUCKET_NAME" !in env || env["S3_BUCKET_NAME"] == ""
    ensures Validate(LoadConfig(env)) == Some(MissingBucket)
  {
  }
}

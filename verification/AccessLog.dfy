/** Parsed access-log lines. */
module AccessLog {
  import opened Basics

  /** Nothing, or a SHA-256 digest. */
  type Fingerprint = f: seq<byte> | f == [] || |f| == 32 witness []

  /** A parsed access-log line. */
  datatype Entry = Entry(domain: string, timestamp: string, status: int, responseMs: real, upstreamMs: real,
                         bytesSent: nat, isBot: bool, fingerprint: Fingerprint,
                         path: string, referrer: string, country: string, device: string, userAgentFamily: string,
                         utm: seq<(string, string)>, cacheStatus: string, compression: string)
}

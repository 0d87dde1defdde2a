/** The server configuration, and the parts of the environment that the model leaves open:
    the gzip codec and the checksum are arbitrary functions. */
module Config {
  import opened Bytes
  import opened Pages

  datatype Option<+T> = None | Some(value: T)

  datatype Config = Config(
    enableRecordLimit: bool,
    recordLimit: int,
    defragAfterRecordDelete: int,
    reallocSize: int,
    recordSizeForCompression: int,
    compress: seq<byte> -> Option<seq<byte>>,     // None: zlib reports an error
    isGzip: seq<byte> -> bool,
    decompress: seq<byte> -> Option<seq<byte>>,
    crc: seq<byte> -> nat)

  /** A record limit in use is at least 1; otherwise the eviction loop would never end. */
  predicate LimitSound(cfg: Config) {
    cfg.enableRecordLimit ==> cfg.recordLimit >= 1
  }

  /** The record is replaced by its compressed form. */
  predicate StoredCompressed(cfg: Config, r: seq<byte>) {
    |r| > cfg.recordSizeForCompression && cfg.compress(r).Some? && |cfg.compress(r).value| < |r|
  }

  /** The bytes that a page keeps for a record. */
  function Stored(cfg: Config, r: seq<byte>): (s: seq<byte>)
    ensures |s| <= |r|
  {
    if StoredCompressed(cfg, r) then cfg.compress(r).value else r
  }

  /** A record is stored in fewer bytes exactly when it is longer than the threshold and packing shortens it. */
  lemma StoredShorterIff(cfg: Config, r: seq<byte>)
    ensures var c := cfg.compress(r);
            && (|Stored(cfg, r)| < |r| <==> |r| > cfg.recordSizeForCompression && c.Some? && |c.value| < |r|)
            && (Stored(cfg, r) == r || Some(Stored(cfg, r)) == c)
  {
  }

  /** The bytes that a reader gets for what a page keeps. */
  function Expand(cfg: Config, s: seq<byte>): seq<byte> {
    if cfg.isGzip(s) && cfg.decompress(s).Some? then cfg.decompress(s).value else s
  }

  /** What zlib promises. */
  ghost predicate LawfulCodec(cfg: Config) {
    forall r: seq<byte> :: cfg.compress(r).Some? ==>
      var c := cfg.compress(r).value; |c| >= 1 && cfg.isGzip(c) && cfg.decompress(c) == Some(r)
  }

  /** A record that is stored as it is and passes for gzip data that unpacks; data that unpack to
      themselves do no harm. */
  predicate LooksPacked(cfg: Config, r: seq<byte>) {
    !StoredCompressed(cfg, r) && cfg.isGzip(r) && cfg.decompress(r).Some? && cfg.decompress(r).value != r
  }

  /** A record is read back as it was written exactly when it is not a client's own gzip data. */
  lemma ReadsBackIff(cfg: Config, r: seq<byte>)
    requires LawfulCodec(cfg)
    ensures Expand(cfg, Stored(cfg, r)) == r <==> !LooksPacked(cfg, r)
  {
    if StoredCompressed(cfg, r) {
      assert cfg.compress(r).Some?;
    }
  }

  /** Stored bytes that survive being read and written again. */
  predicate Canonical(cfg: Config, s: seq<byte>) {
    && 1 <= |s| <= MAX_RECORD_SIZE
    && 1 <= |Expand(cfg, s)| <= MAX_RECORD_SIZE
    && Stored(cfg, Expand(cfg, s)) == s
  }

  lemma StoredIsCanonical(cfg: Config, r: seq<byte>)
    requires LawfulCodec(cfg) && 1 <= |r| <= MAX_RECORD_SIZE && !LooksPacked(cfg, r)
    ensures Canonical(cfg, Stored(cfg, r)) && Expand(cfg, Stored(cfg, r)) == r
  {
    ReadsBackIff(cfg, r);
    if StoredCompressed(cfg, r) {
      assert cfg.compress(r).Some?;
    }
  }

  /** The compressed form of a record, sent by a client as a record of its own: unless the server packs it
      once more, the client gets back what it had compressed. */
  lemma ClientPackedMisread(cfg: Config, r: seq<byte>)
    requires LawfulCodec(cfg) && cfg.compress(r).Some?
    ensures var c := cfg.compress(r).value;
            c != r && !StoredCompressed(cfg, c) ==>
              LooksPacked(cfg, c) && Expand(cfg, Stored(cfg, c)) == r
  {
  }
}

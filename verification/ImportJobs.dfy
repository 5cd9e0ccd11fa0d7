/**
 A download job: curl feeds it headers and body chunks and reports the end of the transfer.
 The first six bytes decide on the decoder.
 */
module ImportJobs {
  import opened Bytes
  import opened Wrappers

  const EIO: int := -5
  const EFBIG: int := -27
  const EOVERFLOW: int := -75
  const ESTALE: int := -116
  const EBUSY: int := -16
  const DOWNLOAD_MAX: nat := 8 * 1024 * 1024 * 1024
  const VERIFICATION_MAX: nat := 1024 * 1024
  const STUB: nat := 6

  datatype State = Init | Analyzing | Running | Done | Failed

  datatype Compression = Uncompressed | Xz | Gzip | Bzip2

  const XZ_SIGNATURE: Bytes := [0xfd, 0x37, 0x7a, 0x58, 0x5a, 0x00]
  const GZIP_SIGNATURE: Bytes := [0x1f, 0x8b]
  const BZIP2_SIGNATURE: Bytes := [0x42, 0x5a, 0x68]

  /** The decoder for a body: its first six bytes decide, however it was cut. */
  function Detect(body: Bytes): Compression {
    if StartsWith(body, XZ_SIGNATURE) then Xz
    else if StartsWith(body, GZIP_SIGNATURE) then Gzip
    else if StartsWith(body, BZIP2_SIGNATURE) then Bzip2
    else Uncompressed
  }

  lemma DetectNeedsSixBytes(body: Bytes, more: Bytes)
    requires |body| >= STUB
    ensures Detect(body + more) == Detect(body[..STUB])
  {
    var all := body + more;
    assert all[..2] == body[..STUB][..2];
    assert all[..3] == body[..STUB][..3];
    assert all[..6] == body[..STUB][..6];
  }

  /** The signatures, byte by byte. */
  lemma DetectBySignature(body: Bytes)
    ensures Detect(body) == Xz <==>
            && |body| >= 6 && body[0] == 0xfd && body[1] == '7' as int && body[2] == 'z' as int
            && body[3] == 'X' as int && body[4] == 'Z' as int && body[5] == 0
    ensures Detect(body) == Gzip <==> |body| >= 2 && body[0] == 0x1f && body[1] == 0x8b
    ensures Detect(body) == Bzip2 <==>
            |body| >= 3 && body[0] == 'B' as int && body[1] == 'Z' as int && body[2] == 'h' as int
  {
    assert |body| >= 6 ==> body[..6] == [body[0], body[1], body[2], body[3], body[4], body[5]];
    assert |body| >= 2 ==> body[..2] == [body[0], body[1]];
    assert |body| >= 3 ==> body[..3] == [body[0], body[1], body[2]];
  }

  /** What the world outside does during one callback. */
  datatype Env = Env(decoderStarts: bool, openDisk: Option<int>, hashOpens: bool, diskError: int)

  datatype HeaderLine = ETag(tag: string) | ContentLength(parsed: Option<nat>) | OtherHeader(handled: int)

  /** The end of the transfer as curl reports it. */
  datatype Completion = TransferError | NoStatus | Status(code: int, truncate: int)

  /** The decoders: output for the next chunk, given all that was fed before, or an error. */
  type Decoder = (Compression, Bytes, Bytes) -> Option<seq<Bytes>>

  /** The output buffer of the decoder loops. */
  const BUFFER: nat := 16 * 1024

  ghost predicate DecoderOk(decode: Decoder) {
    forall c, before, p :: decode(c, before, p).Some? ==> Small(decode(c, before, p).value)
  }

  ghost predicate Small(pieces: seq<Bytes>) {
    forall k :: 0 <= k < |pieces| ==> |pieces[k]| <= BUFFER
  }

  const UNKNOWN: nat := TWO_64 - 1

  class ImportJob {
    const compressedMax: nat
    const uncompressedMax: nat
    const opensDisk: bool
    const calcChecksum: bool
    const oldEtags: set<string>
    const decode: Decoder
    const digest: Bytes -> Bytes

    var state: State
    var error: int
    var etag: Option<string>
    var etagExists: bool
    var contentLength: nat
    var writtenCompressed: nat
    var writtenUncompressed: nat
    var payload: Bytes
    var disk: Option<Bytes>
    var compressed: Compression
    var fed: Bytes
    var hashed: Option<Bytes>
    var checksum: Option<Bytes>
    /** How often on_finished was called. */
    var notified: nat
    /** The pieces in which the decoder was fed. */
    ghost var parts: seq<Bytes>
    /** The body bytes that curl delivered while the job was alive. */
    ghost var received: Bytes

    constructor (max: nat, opensDisk: bool, calcChecksum: bool, oldEtags: set<string>, decode: Decoder,
                 digest: Bytes -> Bytes)
      requires max < UNKNOWN && DecoderOk(decode)
      ensures Inv() && state == Init && received == []
      ensures compressedMax == max && uncompressedMax == max && this.opensDisk == opensDisk
      ensures this.calcChecksum == calcChecksum && this.digest == digest && contentLength == UNKNOWN
    {
      compressedMax, uncompressedMax := max, max;
      this.opensDisk, this.calcChecksum, this.oldEtags := opensDisk, calcChecksum, oldEtags;
      this.decode, this.digest := decode, digest;
      state, error, etag, etagExists, contentLength := Init, 0, None, false, UNKNOWN;
      writtenCompressed, writtenUncompressed, payload, disk := 0, 0, [], None;
      compressed, fed, hashed, checksum, notified, received, parts := Uncompressed, [], None, None, 0, [], [];
    }

    // ---- the invariant -------------------------------------------------------------

    ghost predicate Complete()
      reads this`state
    {
      state == Done || state == Failed
    }

    /** Where decoded bytes go. */
    ghost function Output(): Bytes
      reads this`disk, this`payload
    {
      if disk.Some? then disk.value else payload
    }

    /** Before six bytes are there, everything is kept in the payload. */
    ghost predicate Waiting()
      reads this
    {
      && |received| < STUB && payload == received && disk.None? && hashed.None? && fed == [] && checksum.None?
      && parts == []
      && writtenCompressed == 0 && writtenUncompressed == 0
    }

    /** Hash and decoder have seen exactly the bytes b. */
    ghost predicate Passed(b: Bytes)
      reads this
    {
      && fed == b && hashed == (if calcChecksum then Some(b) else None)
      && writtenCompressed == |b| <= compressedMax
      && (contentLength != UNKNOWN ==> |b| <= contentLength)
      && disk.Some? == opensDisk
      && writtenUncompressed == |Output()| <= uncompressedMax
      && (compressed == Uncompressed ==> Output() == b)
      && (compressed != Uncompressed ==> Concat(parts) == b && Decoded(compressed, parts, Output()))
    }

    /** out is what the decoder makes of the pieces, one after the other. */
    ghost predicate Decoded(c: Compression, parts: seq<Bytes>, out: Bytes)
      decreases |parts|
    {
      if parts == [] then out == []
      else
        var n := |parts| - 1;
        var r := decode(c, Concat(parts[..n]), parts[n]);
        && r.Some? && |Concat(r.value)| <= |out| && out[|out| - |Concat(r.value)|..] == Concat(r.value)
        && Decoded(c, parts[..n], out[..|out| - |Concat(r.value)|])
    }

    lemma DecodedNext(c: Compression, parts: seq<Bytes>, out: Bytes, p: Bytes, pieces: seq<Bytes>)
      requires Decoded(c, parts, out) && decode(c, Concat(parts), p) == Some(pieces)
      ensures Decoded(c, parts + [p], out + Concat(pieces)) && Concat(parts + [p]) == Concat(parts) + p
    {
      var next, o := parts + [p], out + Concat(pieces);
      assert next[..|parts|] == parts;
      assert o[..|out|] == out && o[|out|..] == Concat(pieces);
      ConcatAppend(parts, p);
    }

    /** Once six bytes are there, hash and decoder have seen exactly what was received. */
    ghost predicate Flowing()
      reads this
    {
      |received| >= STUB && compressed == Detect(received[..STUB]) && Passed(received)
    }

    /** A body that came in whole. */
    ghost predicate Downloaded()
      reads this
    {
      && Flowing() && (contentLength != UNKNOWN ==> |received| == contentLength)
      && checksum == (if calcChecksum then Some(digest(received)) else None)
    }

    ghost predicate Inv()
      reads this
    {
      && compressedMax < UNKNOWN && uncompressedMax < UNKNOWN && DecoderOk(decode)
      && (contentLength != UNKNOWN && state != Failed ==> contentLength <= compressedMax)
      && notified == (if state == Done || state == Failed then 1 else 0)
      && (error != 0 <==> state == Failed)
      && match state
         case Init => Waiting() && received == [] && !etagExists
         case Analyzing => Waiting() && !etagExists
         case Running => Flowing() && checksum.None? && !etagExists
         case Done => if etagExists then Waiting() || (Flowing() && checksum.None?) else Downloaded()
         case Failed => !etagExists
    }

    // ---- finishing -----------------------------------------------------------------

    /** import_job_finish: the first call decides and notifies, later ones do nothing. */
    method Finish(ret: int) returns (fired: bool)
      modifies this`state, this`error, this`notified
      ensures fired == !old(Complete())
      ensures if fired then
                && state == (if ret == 0 then Done else Failed) && error == (if ret == 0 then old(error) else ret)
                && notified == old(notified) + 1
              else
                state == old(state) && error == old(error) && notified == old(notified)
    {
      if state == Done || state == Failed {
        return false;
      }
      if ret == 0 {
        state := Done;
      } else {
        state, error := Failed, ret;
      }
      notified := notified + 1;
      return true;
    }

    // ---- writing -------------------------------------------------------------------

    /** 64-bit addition. */
    function Add64(a: nat, b: nat): nat {
      (a + b) % TWO_64
    }

    /** A count that passes both tests is exact: nothing wrapped around. */
    lemma LimitIsExact(a: nat, b: nat, max: nat)
      requires a < TWO_64 && b < TWO_64 && max < TWO_64
      ensures Add64(a, b) >= a && Add64(a, b) <= max <==> a + b <= max
    {
    }

    method WriteUncompressed(p: Bytes, env: Env) returns (r: int)
      requires writtenUncompressed <= uncompressedMax < UNKNOWN && |p| < TWO_64
      modifies this`disk, this`payload, this`writtenUncompressed
      ensures r <= 0 && disk.Some? == old(disk.Some?)
      ensures r == 0 ==> Output() == old(Output()) + p && writtenUncompressed == old(writtenUncompressed) + |p|
      ensures r == 0 ==> writtenUncompressed <= uncompressedMax
      ensures r == 0 <==>
              p == [] || (old(writtenUncompressed) + |p| <= uncompressedMax && (disk.Some? ==> env.diskError >= 0))
      ensures r != 0 ==>
                var n := old(writtenUncompressed) + |p|;
                r == if n >= TWO_64 then EOVERFLOW else if n > uncompressedMax then EFBIG else env.diskError
    {
      if |p| == 0 {
        return 0;
      }
      LimitIsExact(writtenUncompressed, |p|, uncompressedMax);
      if Add64(writtenUncompressed, |p|) < writtenUncompressed {
        return EOVERFLOW;
      }
      if Add64(writtenUncompressed, |p|) > uncompressedMax {
        return EFBIG;
      }
      if disk.Some? {
        if env.diskError < 0 {
          return env.diskError;
        }
        disk := Some(disk.value + p);
      } else {
        payload := payload + p;
      }
      writtenUncompressed := writtenUncompressed + |p|;
      return 0;
    }

    /** The decoder loop: every piece of output is written as it comes. */
    method WriteDecoded(pieces: seq<Bytes>, env: Env) returns (r: int)
      requires writtenUncompressed == |Output()| <= uncompressedMax < UNKNOWN
      requires Small(pieces)
      modifies this`disk, this`payload, this`writtenUncompressed
      ensures r <= 0 && disk.Some? == old(disk.Some?)
      ensures r == 0 ==>
                Output() == old(Output()) + Concat(pieces) && writtenUncompressed == |Output()| <= uncompressedMax
    {
      r := 0;
      ghost var before := Output();
      assert pieces[..0] == [];
      for k := 0 to |pieces|
        invariant disk.Some? == old(disk.Some?)
        invariant Output() == before + Concat(pieces[..k]) && writtenUncompressed == |Output()| <= uncompressedMax
      {
        r := WriteUncompressed(pieces[k], env);
        if r < 0 {
          return;
        }
        ConcatAppend(pieces[..k], pieces[k]);
        assert pieces[..k + 1] == pieces[..k] + [pieces[k]];
        Associate(before, Concat(pieces[..k]), pieces[k]);
      }
      assert pieces[..|pieces|] == pieces;
    }

    method DecodeChunk(p: Bytes, env: Env, ghost b: Bytes) returns (r: int)
      requires DecoderOk(decode) && writtenUncompressed == |Output()| <= uncompressedMax < UNKNOWN && |p| < TWO_64
      requires compressed == Uncompressed ==> Output() == b
      requires compressed != Uncompressed ==> fed == b == Concat(parts) && Decoded(compressed, parts, Output())
      modifies this`disk, this`payload, this`writtenUncompressed, this`fed, this`parts
      ensures r <= 0 && disk.Some? == old(disk.Some?)
      ensures r == 0 ==> fed == old(fed) + p && writtenUncompressed == |Output()| <= uncompressedMax
      ensures r == 0 && compressed == Uncompressed ==> Output() == b + p
      ensures r == 0 && compressed != Uncompressed ==> Concat(parts) == b + p && Decoded(compressed, parts, Output())
      ensures compressed == Uncompressed && p != [] ==>
                (r == 0 <==> |b| + |p| <= uncompressedMax && (disk.Some? ==> env.diskError >= 0))
      ensures compressed != Uncompressed && decode(compressed, old(fed), p).None? ==> r == EIO
    {
      if compressed == Uncompressed {
        fed := fed + p;
        r := WriteUncompressed(p, env);
      } else {
        var pieces := decode(compressed, fed, p);
        fed := fed + p;
        if pieces.None? {
          return EIO;
        }
        ghost var before := Output();
        r := WriteDecoded(pieces.value, env);
        DecodedNext(compressed, parts, before, p, pieces.value);
        parts := parts + [p];
      }
    }

    /** What it takes to write n bytes in all that need no decoder. */
    ghost predicate Admits(n: nat, env: Env)
      reads this`contentLength
    {
      && n <= compressedMax && n <= uncompressedMax && (contentLength != UNKNOWN ==> n <= contentLength)
      && (opensDisk ==> env.diskError >= 0)
    }

    /** The tests on the size of what has been received. */
    method CheckSizes(p: Bytes) returns (r: int)
      requires compressedMax < UNKNOWN && writtenCompressed <= compressedMax && |p| < TWO_64
      requires contentLength != UNKNOWN ==> contentLength <= compressedMax
      ensures r == 0 <==>
              && writtenCompressed + |p| <= compressedMax
              && (contentLength != UNKNOWN ==> writtenCompressed + |p| <= contentLength)
      ensures r != 0 ==> r == if writtenCompressed + |p| >= TWO_64 then EOVERFLOW else EFBIG
    {
      LimitIsExact(writtenCompressed, |p|, compressedMax);
      if Add64(writtenCompressed, |p|) < writtenCompressed {
        return EOVERFLOW;
      }
      if Add64(writtenCompressed, |p|) > compressedMax {
        return EFBIG;
      }
      if contentLength != UNKNOWN && Add64(writtenCompressed, |p|) > contentLength {
        return EFBIG;
      }
      return 0;
    }

    /** A chunk that is accepted reaches hash and decoder whole; one that would exceed a limit or
        the announced length is refused. */
    method WriteCompressed(p: Bytes, env: Env, ghost b: Bytes) returns (r: int)
      requires DecoderOk(decode) && compressedMax < UNKNOWN && uncompressedMax < UNKNOWN && |p| < TWO_64 && Passed(b)
      requires contentLength != UNKNOWN ==> contentLength <= compressedMax
      modifies this`disk, this`payload, this`writtenUncompressed, this`fed, this`hashed, this`writtenCompressed
      modifies this`parts
      ensures r <= 0 && (r == 0 ==> Passed(b + p))
      ensures p != [] && (|b| + |p| > compressedMax || (contentLength != UNKNOWN && |b| + |p| > contentLength)) ==>
                r < 0
      ensures p != [] && compressed == Uncompressed ==> (r == 0 <==> Admits(|b| + |p|, env))
    {
      hide DecoderOk, Decoded, Concat;
      if |p| == 0 {
        assert b + p == b;
        return 0;
      }
      r := CheckSizes(p);
      if r < 0 {
        return;
      }
      if hashed.Some? {
        hashed := Some(hashed.value + p);
      }
      r := DecodeChunk(p, env, b);
      if r < 0 {
        return;
      }
      writtenCompressed := writtenCompressed + |p|;
    }

    // ---- the callbacks -------------------------------------------------------------

    ghost predicate Opens(env: Env) {
      (opensDisk ==> env.openDisk.None? || env.openDisk.value >= 0) && (calcChecksum ==> env.hashOpens)
    }

    /** Opening the target and the hash. */
    method OpenDisk(env: Env) returns (r: int)
      requires disk.None? && hashed.None?
      modifies this`disk, this`hashed
      ensures r <= 0 && (r == 0 <==> Opens(env))
      ensures r != 0 ==>
                r == if opensDisk && env.openDisk.Some? && env.openDisk.value < 0 then env.openDisk.value else EIO
      ensures r == 0 ==> disk == (if opensDisk then Some([]) else None)
      ensures r == 0 ==> hashed == (if calcChecksum then Some([]) else None)
    {
      if opensDisk {
        if env.openDisk.Some? && env.openDisk.value < 0 {
          return env.openDisk.value;
        }
        disk := Some([]);
      }
      if calcChecksum {
        if !env.hashOpens {
          return EIO;
        }
        hashed := Some([]);
      }
      return 0;
    }

    method DetectCompression(env: Env) returns (r: int)
      requires state == Analyzing && payload == received && disk.None? && hashed.None? && fed == [] && parts == []
      requires writtenCompressed == 0 && writtenUncompressed == 0 && |payload| < TWO_64 && checksum.None?
      requires DecoderOk(decode) && compressedMax < UNKNOWN && uncompressedMax < UNKNOWN
      requires contentLength != UNKNOWN ==> contentLength <= compressedMax
      modifies this`state, this`compressed, this`disk, this`hashed, this`payload
      modifies this`writtenUncompressed, this`fed, this`writtenCompressed, this`parts
      ensures r <= 0
      ensures r == 0 ==> if |received| < STUB then state == Analyzing && Waiting() else state == Running && Flowing()
      ensures r < 0 ==> state == Analyzing || state == Running
      ensures |received| >= STUB && Detect(received[..STUB]) == Uncompressed ==>
                (r == 0 <==> Opens(env) && Admits(|received|, env))
      ensures |received| >= STUB && Detect(received[..STUB]) != Uncompressed && !env.decoderStarts ==> r == EIO
    {
      hide DecoderOk, Detect;
      if |payload| < STUB {
        return 0;
      }
      compressed := Detect(payload[..STUB]);
      if compressed != Uncompressed && !env.decoderStarts {
        return EIO;
      }
      r := OpenDisk(env);
      if r < 0 {
        return;
      }
      var stub := payload;
      payload, state := [], Running;
      r := WriteCompressed(stub, env, []);
      assert [] + stub == stub;
    }

    /** A chunk of the body. The return value says whether on_finished is due. */
    method WriteCallback(contents: Bytes, env: Env) returns (fired: bool)
      requires Inv() && state != Init && (Complete() || |received| + |contents| < TWO_64)
      modifies this
      ensures Inv() && fired == (notified > old(notified)) && contentLength == old(contentLength)
      ensures old(Complete()) ==> unchanged(this)
      ensures !old(Complete()) ==> received == old(received) + contents && state != Done && state != Init
      ensures !old(Complete()) && state != Failed ==> (state == Running <==> |received| >= STUB)
      ensures !old(Complete()) && contents != [] && |received| >= STUB && Detect(received[..STUB]) == Uncompressed ==>
                (state == Running <==> (old(state) == Analyzing ==> Opens(env)) && Admits(|received|, env))
    {
      hide DecoderOk, Waiting, Flowing, Downloaded;
      var r := Accept(contents, env);
      fired := false;
      if r < 0 {
        fired := Finish(r);
      }
    }

    method Accept(contents: Bytes, env: Env) returns (r: int)
      requires Inv() && state != Init && (Complete() || |received| + |contents| < TWO_64)
      modifies this`received, this`state, this`compressed, this`disk, this`hashed, this`payload
      modifies this`writtenUncompressed, this`fed, this`writtenCompressed, this`parts
      ensures r <= 0 && (r == 0 ==> Inv() && (state == Running <==> |received| >= STUB))
      ensures old(Complete()) ==> r < 0 && unchanged(this)
      ensures !old(Complete()) ==> received == old(received) + contents && (state == Analyzing || state == Running)
      ensures !old(Complete()) && contents != [] && |received| >= STUB && Detect(received[..STUB]) == Uncompressed ==>
                (r == 0 <==> (old(state) == Analyzing ==> Opens(env)) && Admits(|received|, env))
    {
      hide DecoderOk, Decoded, Concat;
      match state {
        case Analyzing =>
          payload := payload + contents;
          received := received + contents;
          r := DetectCompression(env);
        case Running =>
          ghost var before := received;
          received := received + contents;
          r := WriteCompressed(contents, env, before);
          assert received[..STUB] == before[..STUB];
        case _ =>
          r := ESTALE;
      }
    }

    /** A header line; curl reports all of them before the body. */
    method HeaderCallback(h: HeaderLine) returns (fired: bool)
      requires Inv() && state != Init && state != Running
      modifies this
      ensures Inv() && fired == (notified > old(notified)) && received == old(received)
      ensures old(Complete()) ==> unchanged(this)
      ensures !old(Complete()) ==>
                (state == Done <==> h.ETag? && h.tag in oldEtags) && state != Running && state != Init
      ensures state == Done && !old(Complete()) ==> etagExists && disk.None?
      ensures !old(Complete()) && h.ContentLength? ==>
                && contentLength == (if h.parsed.Some? && h.parsed.value < TWO_64 then h.parsed.value
                                     else old(contentLength))
                && (state == Failed <==> contentLength != UNKNOWN && contentLength > compressedMax)
      ensures !old(Complete()) && !h.ContentLength? ==> (state == Failed <==> h.OtherHeader? && h.handled < 0)
      ensures !old(Complete()) ==> etag == (if h.ETag? then Some(h.tag) else old(etag))
      ensures !old(Complete()) && !h.ContentLength? ==> contentLength == old(contentLength)
      ensures !old(Complete()) && state == Failed ==> error == (if h.OtherHeader? then h.handled else EFBIG)
    {
      hide DecoderOk;
      if state == Done || state == Failed {
        fired := Finish(ESTALE);
        return;
      }
      var r := 0;
      match h {
        case ETag(tag) =>
          etag := Some(tag);
          if tag in oldEtags {
            etagExists := true;
            fired := Finish(0);
            return;
          }
        case ContentLength(parsed) =>
          if parsed.Some? && parsed.value < TWO_64 {
            contentLength := parsed.value;
          }
          if contentLength != UNKNOWN && contentLength > compressedMax {
            r := EFBIG;
          }
        case OtherHeader(handled) =>
          r := handled;
      }
      fired := false;
      if r < 0 {
        fired := Finish(r);
      }
    }

    /** The end of the transfer. Success means that the whole announced body is in, or that an
        older download serves; a body of fewer than six bytes never succeeds. */
    method CurlOnFinished(c: Completion) returns (fired: bool)
      requires Inv() && state != Init
      modifies this
      ensures Inv() && fired == (notified > old(notified)) && received == old(received) && Complete()
      ensures disk.Some? == old(disk.Some?)
      ensures old(Complete()) ==> unchanged(this)
      ensures !old(Complete()) ==>
                (state == Done <==> Succeeds(old(state), old(writtenCompressed), contentLength, old(disk), c))
      ensures !old(Complete()) && state == Done ==> etagExists == (c.code == 304)
      ensures !old(Complete()) && c.Status? && c.code == 304 ==> state == Done
      ensures !old(Complete()) && state == Failed ==>
                error == if Succeeds(old(state), old(writtenCompressed), contentLength, None, c) then c.truncate
                         else EIO
    {
      hide DecoderOk;
      fired := false;
      if state == Done || state == Failed {
        return;
      }
      var r := 0;
      if !c.Status? {
        r := EIO;
      } else if c.code == 304 {
        etagExists := true;
      } else if c.code >= 300 || c.code < 200 {
        r := EIO;
      } else if state != Running {
        r := EIO;
      } else if contentLength != UNKNOWN && contentLength != writtenCompressed {
        r := EIO;
      } else {
        if hashed.Some? {
          checksum := Some(digest(hashed.value));
        }
        if disk.Some? && c.truncate < 0 {
          r := c.truncate;
        }
      }
      fired := Finish(r);
    }

    /** When a live job succeeds. */
    ghost predicate Succeeds(s: State, written: nat, length: nat, target: Option<Bytes>, c: Completion) {
      && c.Status?
      && (c.code == 304 ||
          (200 <= c.code < 300 && s == Running && (length == UNKNOWN || length == written) &&
           (target.Some? ==> c.truncate >= 0)))
    }

    /** import_job_begin: the job is handed to curl. */
    method Begin(started: int) returns (r: int)
      requires Inv()
      modifies this`state
      ensures Inv() && r == if old(state) != Init then EBUSY else if started < 0 then started else 0
      ensures state == if r == 0 then Analyzing else old(state)
    {
      if state != Init {
        return EBUSY;
      }
      if started < 0 {
        return started;
      }
      state := Analyzing;
      return 0;
    }

    /** A whole download, cut into chunks in any way: if it succeeds without an older download,
        hash, decoder and counters stand for the concatenation of the chunks. */
    method Download(chunks: seq<Bytes>, envs: seq<Env>, c: Completion)
      requires Inv() && state == Analyzing && received == [] && |chunks| == |envs| && |Concat(chunks)| < TWO_64
      modifies this
      ensures Inv() && Complete()
      ensures state == Done && !etagExists ==> received == Concat(chunks) && Downloaded()
      ensures state == Done && !etagExists && Detect(Concat(chunks)) == Uncompressed ==> Output() == Concat(chunks)
      ensures |Concat(chunks)| < STUB && !(c.Status? && c.code == 304) ==> state == Failed
    {
      hide DecoderOk, Inv, Downloaded, Succeeds;
      var k := 0;
      assert chunks[..0] == [];
      while k < |chunks|
        invariant k <= |chunks| && Inv() && state != Init && state != Done
        invariant state != Failed ==> received == Concat(chunks[..k]) && (state == Running <==> |received| >= STUB)
      {
        ConcatPrefix(chunks, k + 1);
        assert chunks[..k + 1][..k] == chunks[..k];
        assert chunks[..k + 1] == chunks[..k] + [chunks[k]];
        ConcatAppend(chunks[..k], chunks[k]);
        if state == Failed {
          break;
        }
        var _ := WriteCallback(chunks[k], envs[k]);
        k := k + 1;
      }
      assert k == |chunks| ==> chunks[..k] == chunks;
      ghost var before := state;
      var _ := CurlOnFinished(c);
      SucceedsMeans(before);
      if state == Done && !etagExists {
        DoneMeans();
      }
    }

    lemma SucceedsMeans(s: State)
      ensures forall written: nat, length: nat, target: Option<Bytes>, c: Completion ::
                Succeeds(s, written, length, target, c) ==> c.Status? && (c.code == 304 || s == Running)
    {
    }

    lemma RunningMeans()
      requires Inv() && state == Running
      ensures disk.Some? == opensDisk
    {
      hide DecoderOk;
    }

    lemma DoneMeans()
      requires Inv() && state == Done && !etagExists
      ensures Downloaded() && (Detect(received) == Uncompressed ==> Output() == received)
    {
      hide DecoderOk;
      DetectNeedsSixBytes(received, []);
      assert received + [] == received;
    }
  }

  lemma {:induction false} ConcatPrefix(chunks: seq<Bytes>, k: nat)
    requires k <= |chunks|
    ensures |Concat(chunks[..k])| <= |Concat(chunks)|
  {
    if k > 0 {
      ConcatPrefix(chunks[1..], k - 1);
      assert chunks[..k][1..] == chunks[1..][..k - 1];
    }
  }
}

/**
 Pulling a raw image: up to three downloads run side by side, and the last one to finish moves
 the image into place.
 */
module ImportRaw {
  import opened Bytes
  import opened ImportJobs
  import opened Wrappers
  import Qcow2
  import Qcow2Convert
  import Qcow2Format

  /** The largest chunk: one half of the address space. */
  const CHUNK_MAX: nat := 0x8000_0000_0000_0000

  datatype Event = Header(line: HeaderLine) | Body(contents: Bytes, env: Env) | Finished(completion: Completion)

  /** What is known of a job that was in the state s before the callback: whether it takes bytes that
      need no decoder, and that an older download serves when the server says so. */
  ghost predicate Fits(j: ImportJob, ev: Event, s: State, disk: Option<Bytes>)
    reads j
  {
    s == Analyzing || s == Running ==>
      match ev
      case Header(_) => true
      case Body(contents, env) =>
        contents != [] && |j.received| >= STUB && Detect(j.received[..STUB]) == Uncompressed ==>
          (j.state == Running <==> (s == Analyzing ==> j.Opens(env)) && j.Admits(|j.received|, env))
      case Finished(c) =>
        c.Status? && c.code == 304 ==> j.state == Done && j.etagExists && j.disk.Some? == disk.Some?
  }

  /** One callback of curl. aborted stands for the assertion that headers come before the body. */
  method Handle(j: ImportJob, ev: Event) returns (fired: bool, aborted: bool)
    requires j.Inv() && j.state != Init && j.compressedMax <= DOWNLOAD_MAX && (ev.Body? ==> |ev.contents| <= CHUNK_MAX)
    modifies j
    ensures j.Inv() && j.state != Init
    ensures old(j.Complete()) ==> unchanged(j) && !fired
    ensures aborted <==> old(j.state) == Running && ev.Header?
    ensures aborted ==> unchanged(j) && !fired
    ensures !old(j.Complete()) ==> (fired <==> j.Complete())
    ensures j.received == if ev.Body? && !old(j.Complete()) then old(j.received) + ev.contents else old(j.received)
    ensures ev.Finished? ==> j.Complete()
    ensures Fits(j, ev, old(j.state), old(j.disk)) && (ev.Body? ==> j.contentLength == old(j.contentLength))
  {
    hide DecoderOk, ImportJob.Downloaded, ImportJob.Succeeds;
    aborted := false;
    match ev {
      case Header(h) =>
        if j.state == Running {
          return false, true;
        }
        fired := j.HeaderCallback(h);
      case Body(contents, env) =>
        fired := j.WriteCallback(contents, env);
      case Finished(c) =>
        fired := j.CurlOnFinished(c);
    }
  }

  datatype Which = RawJob | ChecksumJob | SignatureJob

  /** A callback for one of the jobs, and what the system would do if it completes the import. */
  datatype Step = Step(which: Which, event: Event, final: Final)

  datatype Verify = NoVerify | ByChecksum | BySignature

  function Code(e: Qcow2.Errno): (r: int)
    ensures r < 0
  {
    match e
    case EIO => EIO
    case EBADMSG => -74
    case ENOTSUP => -95
    case EINVAL => -22
  }

  datatype Crash = Alive | HeaderAfterBody | DiskStillOpen

  /** The numbers of the errors. */
  lemma Codes()
    ensures Code(Qcow2.EIO) == -5 && Code(Qcow2.EBADMSG) == -74 && Code(Qcow2.ENOTSUP) == -95
    ensures Code(Qcow2.EINVAL) == -22
  {
  }

  /** The steps after verification, as the system performs them. */
  datatype Final = Final(create: int, readOnly: int, rename: int, reopen: int, copy: int)

  class RawImport {
    const verify: Verify
    const local: bool
    const raw: ImportJob
    const checksum: ImportJob?
    const signature: ImportJob?
    /** import_verify: the digest of the image against the list, the list against the signature. */
    const verifier: (Option<Bytes>, Option<Bytes>, Option<Bytes>) -> int
    /** The raw deflate decoder. */
    const inflate: Bytes -> Option<Bytes>
    /** The contents that were moved to the final path. */
    var published: seq<Bytes>
    var outcomes: seq<int>
    var crash: Crash

    ghost function Jobs(): set<object> {
      {raw} + (if checksum != null then {checksum} else {}) + (if signature != null then {signature} else {})
    }

    /** The jobs that the verification mode asks for, each in order and under way. */
    ghost predicate JobsOk()
      reads Jobs()
    {
      && (checksum != null <==> verify != NoVerify) && (signature != null <==> verify == BySignature)
      && raw != checksum && raw != signature && (checksum != null ==> checksum != signature)
      && raw.opensDisk && raw.calcChecksum == (verify != NoVerify)
      && JobOk(raw) && (checksum != null ==> JobOk(checksum)) && (signature != null ==> JobOk(signature))
    }

    ghost predicate JobOk(j: ImportJob)
      reads j
    {
      j.Inv() && j.compressedMax <= DOWNLOAD_MAX
    }

    predicate IsDone()
      reads Jobs()
    {
      && raw.state == Done
      && (checksum != null ==> checksum.state == Done)
      && (signature != null ==> signature.state == Done)
    }

    ghost predicate AnyFailed()
      reads Jobs()
    {
      || raw.state == Failed
      || (checksum != null && checksum.state == Failed) || (signature != null && signature.state == Failed)
    }

    function Verified(): int
      reads Jobs()
    {
      if checksum == null then 0
      else verifier(raw.checksum, Some(checksum.payload), if signature == null then None else Some(signature.payload))
    }

    /** The answer of the verifier that the mode asks for, about exactly the bytes that were received. */
    ghost predicate Answers(r: int)
      reads Jobs()
    {
      match verify
      case NoVerify => r == 0
      case ByChecksum =>
        checksum != null && r == verifier(Some(raw.digest(raw.received)), Some(checksum.payload), None)
      case BySignature =>
        && checksum != null && signature != null
        && r == verifier(Some(raw.digest(raw.received)), Some(checksum.payload), Some(signature.payload))
    }

    lemma VerifiedAnswers()
      requires JobsOk() && IsDone() && !raw.etagExists
      ensures forall r :: Answers(r) <==> r == Verified()
    {
      hide ImportJob.Inv, ImportJob.Downloaded;
      JobFacts(raw);
    }

    /** What goes to the final path. */
    ghost function Content(): Qcow2.Result<Bytes>
      reads raw
    {
      Qcow2Convert.RawImage(if raw.disk.Some? then raw.disk.value else [], inflate)
    }

    /** The image has to be unpacked into a file of its own. */
    ghost predicate Packed()
      reads raw
    {
      raw.disk.Some? && |raw.disk.value| >= Qcow2Convert.MAGIC_BYTES && Qcow2Convert.IsQcow2(raw.disk.value)
    }

    /** The image was moved into place at most once: after all jobs were done, the image whole
        and freshly downloaded, and the verification passed. */
    ghost predicate PublishedOk()
      reads this, Jobs()
    {
      published != [] ==>
        && IsDone() && !AnyFailed() && !raw.etagExists && raw.Downloaded() && Verified() >= 0 && |published| == 1
        && Content() == Qcow2.Ok(published[0])
    }

    ghost predicate Story()
      reads this, Jobs()
    {
      && PublishedOk()
      && (crash == DiskStillOpen <==> local && IsDone() && raw.etagExists && raw.disk.Some?)
      && (crash == Alive ==> (outcomes != [] <==> AnyFailed() || IsDone()))
      && (crash == Alive && 0 in outcomes ==> IsDone() && (raw.etagExists || published != []))
      && (crash == Alive && IsDone() && !raw.etagExists ==>
            forall r :: Answers(r) && r < 0 ==> published == [] && outcomes == [r])
      && (published != [] ==> exists r :: Answers(r) && r >= 0)
    }

    ghost predicate Inv()
      reads this, Jobs()
    {
      JobsOk() && Story()
    }

    /** raw_import_pull: the image may take 8 GB, the files it is verified with 1 MB each. They
        start in turn; after a failure the rest stay where they are. */
    constructor (verify: Verify, local: bool, oldEtags: set<string>, decode: Decoder, digest: Bytes -> Bytes,
                 verifier: (Option<Bytes>, Option<Bytes>, Option<Bytes>) -> int, inflate: Bytes -> Option<Bytes>,
                 starts: seq<int>)
      requires DecoderOk(decode) && |starts| == 3
      ensures Inv() && published == [] && outcomes == [] && crash == Alive
      ensures this.verify == verify && this.local == local && this.verifier == verifier && this.inflate == inflate
      ensures raw.compressedMax == raw.uncompressedMax == DOWNLOAD_MAX && raw.digest == digest && fresh(Jobs())
      ensures checksum != null ==> checksum.compressedMax == VERIFICATION_MAX
      ensures signature != null ==> signature.compressedMax == VERIFICATION_MAX
      ensures raw.received == [] && raw.state == (if starts[0] < 0 then Init else Analyzing) &&
              raw.contentLength == UNKNOWN
      ensures checksum != null ==> checksum.state == if starts[0] < 0 || starts[1] < 0 then Init else Analyzing
      ensures signature != null ==>
                signature.state == if starts[0] < 0 || starts[1] < 0 || starts[2] < 0 then Init else Analyzing
    {
      hide DecoderOk, ImportJob.Inv, Qcow2Convert.RawImage;
      this.verify, this.local, this.verifier, this.inflate := verify, local, verifier, inflate;
      published, outcomes, crash := [], [], Alive;
      var r := new ImportJob(DOWNLOAD_MAX, true, verify != NoVerify, oldEtags, decode, digest);
      var status := r.Begin(starts[0]);
      var c: ImportJob?, s: ImportJob? := null, null;
      if verify != NoVerify {
        c := new ImportJob(VERIFICATION_MAX, false, false, {}, decode, digest);
        if status == 0 {
          status := c.Begin(starts[1]);
        }
      }
      if verify == BySignature {
        s := new ImportJob(VERIFICATION_MAX, false, false, {}, decode, digest);
        if status == 0 {
          status := s.Begin(starts[2]);
        }
      }
      raw, checksum, signature := r, c, s;
    }

    /** raw_import_job_on_finished. */
    method OnFinished(j: ImportJob, f: Final)
      requires JobsOk() && j in Jobs() && j.Complete() && published == [] && crash == Alive && 0 !in outcomes
      requires outcomes != [] ==> AnyFailed()
      requires AnyFailed() && j.state != Failed ==> outcomes != []
      modifies this
      ensures Inv() && crash != HeaderAfterBody
      ensures j.error != 0 ==> outcomes == old(outcomes) + [j.error] && published == [] && crash == Alive
      ensures j.error == 0 && !IsDone() ==> outcomes == old(outcomes) && published == [] && crash == Alive
    {
      hide ImportJob.Inv, ImportJob.Downloaded;
      JobFacts(j);
      if j.error != 0 {
        outcomes := outcomes + [j.error];
        return;
      }
      if !IsDone() {
        return;
      }
      FinishAll(f);
    }

    lemma JobFacts(j: ImportJob)
      requires j.Inv()
      ensures j.error != 0 <==> j.state == Failed
      ensures j.state == Done && !j.etagExists ==> j.Downloaded() && j.disk.Some? == j.opensDisk
      ensures j.state == Done && !j.etagExists ==>
                j.checksum == if j.calcChecksum then Some(j.digest(j.received)) else None
    {
      hide DecoderOk;
    }

    /** All jobs are done. */
    method FinishAll(f: Final)
      requires JobsOk() && IsDone() && published == [] && crash == Alive && outcomes == []
      modifies this
      ensures Inv() && crash != HeaderAfterBody
      ensures (published != []) <==> !raw.etagExists && PublishResult(f) == 0
      ensures crash == Alive ==>
                outcomes == [if !raw.etagExists && PublishResult(f) < 0 then PublishResult(f) else LocalResult(f)]
    {
      hide ImportJob.Inv, ImportJob.Downloaded, Answers;
      JobFacts(raw);
      if !raw.etagExists {
        assert raw.disk.Some?;
        var r := Publish(f);
        if r < 0 {
          outcomes := outcomes + [r];
          VerifiedAnswers();
          return;
        }
      }
      MakeLocalCopy(f);
      if !raw.etagExists {
        VerifiedAnswers();
        assert Answers(Verified());
      }
    }

    /** The first step that fails, or 0: verification, conversion, protection, rename. */
    ghost function PublishResult(f: Final): int
      reads Jobs()
    {
      if Verified() < 0 then Verified()
      else if Packed() && f.create < 0 then f.create
      else if Content().Err? then Code(Content().error)
      else if f.readOnly < 0 then f.readOnly
      else if f.rename < 0 then f.rename
      else 0
    }

    method Publish(f: Final) returns (r: int)
      requires JobsOk() && IsDone() && !raw.etagExists && raw.disk.Some? && published == []
      modifies this`published
      ensures r == PublishResult(f) <= 0 && (r == 0 <==> published != []) && PublishedOk()
    {
      hide ImportJob.Inv, ImportJob.Downloaded, Qcow2Convert.RawImage, Qcow2Convert.IsQcow2;
      JobFacts(raw);
      assert checksum != null ==> raw.calcChecksum && raw.checksum.Some?;
      r := Verified();
      if r < 0 {
        return;
      }
      var content, e := MaybeConvert(raw.disk.value, f);
      if e < 0 {
        return e;
      }
      if f.readOnly < 0 {
        return f.readOnly;
      }
      if f.rename < 0 {
        return f.rename;
      }
      published := published + [content];
      r := 0;
    }

    /** raw_import_maybe_convert_qcow2. */
    method MaybeConvert(img: Bytes, f: Final) returns (content: Bytes, r: int)
      ensures r == if |img| >= Qcow2Convert.MAGIC_BYTES && Qcow2Convert.IsQcow2(img) && f.create < 0 then f.create
                   else if Qcow2Convert.RawImage(img, inflate).Err? then Code(Qcow2Convert.RawImage(img, inflate).error)
                   else 0
      ensures r == 0 ==> Qcow2Convert.RawImage(img, inflate) == Qcow2.Ok(content)
    {
      hide Qcow2Convert.ConvertError, Qcow2Convert.IsVirtualDisk, Qcow2Convert.IsQcow2, Qcow2Convert.Open;
      content, r := img, 0;
      if |img| < Qcow2Convert.MAGIC_BYTES {
        return img, EIO;
      }
      if Qcow2Convert.IsQcow2(img) {
        if f.create < 0 {
          return img, f.create;
        }
        var file := new Qcow2Convert.RawFile();
        var e := Qcow2Convert.Qcow2Convert(img, inflate, file);
        Qcow2Convert.RawImageOfQcow2(img, inflate, file.data);
        if e.Some? {
          return img, Code(e.value);
        }
        content := file.data;
      }
    }

    /** The local copy: an older image is opened again first. */
    ghost function LocalResult(f: Final): int
      reads raw
    {
      if !local then 0
      else if raw.etagExists && f.reopen < 0 then f.reopen
      else if f.copy < 0 then f.copy
      else 0
    }

    method MakeLocalCopy(f: Final)
      requires JobsOk() && IsDone() && crash == Alive && outcomes == []
      modifies this`outcomes, this`crash
      ensures crash == (if local && raw.etagExists && raw.disk.Some? then DiskStillOpen else Alive)
      ensures crash == Alive ==> outcomes == [LocalResult(f)]
    {
      var r := 0;
      if local {
        if raw.etagExists {
          if raw.disk.Some? {
            crash := DiskStillOpen;
            return;
          }
          r := f.reopen;
        }
        if r >= 0 {
          r := f.copy;
        }
      }
      outcomes := outcomes + [if r < 0 then r else 0];
    }

    /** Something happens to one of the jobs that curl knows. After a crash nothing does. */
    method Deliver(j: ImportJob, ev: Event, f: Final)
      requires Inv() && j in Jobs() && j.state != Init && (ev.Body? ==> |ev.contents| <= CHUNK_MAX)
      modifies this, j
      ensures Inv() && j.state != Init
      ensures old(published) <= published
      ensures old(crash) != Alive ==> crash == old(crash) && unchanged(j)
      ensures crash == HeaderAfterBody && old(crash) == Alive <==>
                old(crash) == Alive && old(j.state) == Running && ev.Header?
      ensures old(crash) == Alive ==>
                j.received == (if ev.Body? && !old(j.Complete()) then old(j.received) + ev.contents
                               else old(j.received))
      ensures old(crash) == Alive && ev.Finished? ==> j.Complete()
      ensures old(crash) == Alive && old(j.Complete()) ==> unchanged(j)
      ensures old(crash) == Alive ==> Fits(j, ev, old(j.state), old(j.disk))
      ensures ev.Body? ==> j.contentLength == old(j.contentLength)
    {
      hide DecoderOk, ImportJob.Inv, Fits;
      if crash != Alive {
        return;
      }
      var fired, aborted := Handle(j, ev);
      if aborted {
        crash := HeaderAfterBody;
        return;
      }
      if fired {
        OnFinished(j, f);
      }
    }

    function JobOf(w: Which): ImportJob? {
      match w
      case RawJob => raw
      case ChecksumJob => checksum
      case SignatureJob => signature
    }

    ghost function Received(w: Which): Bytes
      reads Jobs()
    {
      if JobOf(w) == null then [] else JobOf(w).received
    }

    /** What curl delivered for a job. */
    ghost function Bodies(steps: seq<Step>, w: Which): Bytes {
      if steps == [] then []
      else
        Bodies(steps[..|steps| - 1], w) + Brings(steps[|steps| - 1], w)
    }

    /** A job has received what curl delivered for it since it had `before`: all of it as long as it is
        under way, and nothing from others. */
    ghost predicate Fed(j: ImportJob?, before: Bytes, delivered: Bytes)
      reads this`crash
      reads if j == null then {} else {j}
    {
      j != null ==>
        && j.received <= before + delivered
        && (crash == Alive && (j.state == Analyzing || j.state == Running) ==> j.received == before + delivered)
    }

    /** What one callback brings to a job. */
    ghost function Brings(s: Step, w: Which): Bytes {
      if s.which == w && s.event.Body? then s.event.contents else []
    }

    /** One callback. curl knows only the jobs that exist and have begun. */
    method DeliverOne(s: Step, ghost before: Which -> Bytes, ghost sent: Which -> Bytes)
      requires Inv() && (s.event.Body? ==> |s.event.contents| <= CHUNK_MAX)
      requires forall w :: Fed(JobOf(w), before(w), sent(w))
      modifies this, Jobs()
      ensures Inv() && forall w :: Fed(JobOf(w), before(w), sent(w) + Brings(s, w))
    {
      hide ImportJob.Inv, Story, Fits;
      var j := JobOf(s.which);
      if j != null && j.state != Init {
        Associate(before(s.which), sent(s.which), Brings(s, s.which));
        Deliver(j, s.event, s.final);
      }
    }

    /** Any interleaving of the callbacks. */
    method DeliverAll(steps: seq<Step>)
      requires Inv() && forall k :: 0 <= k < |steps| && steps[k].event.Body? ==> |steps[k].event.contents| <= CHUNK_MAX
      modifies this, Jobs()
      ensures Inv()
      ensures forall w :: Fed(JobOf(w), old(Received(w)), Bodies(steps, w))
    {
      hide Inv;
      ghost var before := w => old(Received(w));
      for k := 0 to |steps|
        invariant Inv() && forall w :: Fed(JobOf(w), before(w), Bodies(steps[..k], w))
      {
        DeliverOne(steps[k], before, w => Bodies(steps[..k], w));
        assert steps[..k + 1][..k] == steps[..k];
      }
      assert steps[..|steps|] == steps;
    }

    /** What holds of every state: what is moved into place is the raw image that the delivered bytes
        stand for, and the verifier has accepted it. */
    lemma Consequences()
      requires Inv()
      ensures |published| <= 1
      ensures published != [] ==>
                IsDone() && !AnyFailed() && !raw.etagExists && Verified() >= 0 && Content() == Qcow2.Ok(published[0])
      ensures published != [] && Detect(raw.received) == Uncompressed ==>
                && Qcow2Convert.RawImage(raw.received, inflate) == Qcow2.Ok(published[0])
                && Qcow2Format.FaithfulIff(raw.received, inflate, published[0])
      ensures published != [] && verify != NoVerify ==> raw.checksum == Some(raw.digest(raw.received))
      ensures published != [] ==>
                && raw.state == Done && (checksum != null ==> checksum.state == Done)
                && (signature != null ==> signature.state == Done)
      ensures published != [] && verify == ByChecksum ==>
                && checksum != null
                && verifier(Some(raw.digest(raw.received)), Some(checksum.payload), None) >= 0
      ensures published != [] && verify == BySignature ==>
                && checksum != null && signature != null
                && verifier(Some(raw.digest(raw.received)), Some(checksum.payload), Some(signature.payload)) >= 0
      ensures verify == ByChecksum && crash == Alive && IsDone() && !raw.etagExists ==>
                && checksum != null
                && var r := verifier(Some(raw.digest(raw.received)), Some(checksum.payload), None);
                   r < 0 ==> published == [] && outcomes == [r]
      ensures verify == BySignature && crash == Alive && IsDone() && !raw.etagExists ==>
                && checksum != null && signature != null
                && var r := verifier(Some(raw.digest(raw.received)), Some(checksum.payload), Some(signature.payload));
                   r < 0 ==> published == [] && outcomes == [r]
      ensures AnyFailed() ==> published == []
    {
      hide ImportJob.Inv, ImportJob.Downloaded, Qcow2Convert.RawImage, Qcow2Format.FaithfulIff;
      JobFacts(raw);
      if published != [] {
        raw.DoneMeans();
        if Detect(raw.received) == Uncompressed {
          Qcow2Format.RawImageIsFaithfulIff(raw.received, inflate, published[0]);
        }
      }
    }

    /** A whole run. */
    method Run(steps: seq<Step>)
      requires Inv() && forall k :: 0 <= k < |steps| && steps[k].event.Body? ==> |steps[k].event.contents| <= CHUNK_MAX
      modifies this, Jobs()
      ensures Inv() && |published| <= 1
      ensures forall w :: Fed(JobOf(w), old(Received(w)), Bodies(steps, w))
      ensures published != [] ==>
                IsDone() && !AnyFailed() && !raw.etagExists && Verified() >= 0 && Content() == Qcow2.Ok(published[0])
      ensures published != [] && Detect(raw.received) == Uncompressed ==>
                && Qcow2Convert.RawImage(raw.received, inflate) == Qcow2.Ok(published[0])
                && Qcow2Format.FaithfulIff(raw.received, inflate, published[0])
      ensures published != [] && verify != NoVerify ==> raw.checksum == Some(raw.digest(raw.received))
      ensures published != [] ==>
                && raw.state == Done && (checksum != null ==> checksum.state == Done)
                && (signature != null ==> signature.state == Done)
      ensures published != [] && verify == ByChecksum ==>
                && checksum != null
                && verifier(Some(raw.digest(raw.received)), Some(checksum.payload), None) >= 0
      ensures published != [] && verify == BySignature ==>
                && checksum != null && signature != null
                && verifier(Some(raw.digest(raw.received)), Some(checksum.payload), Some(signature.payload)) >= 0
      ensures verify == ByChecksum && crash == Alive && IsDone() && !raw.etagExists ==>
                && checksum != null
                && var r := verifier(Some(raw.digest(raw.received)), Some(checksum.payload), None);
                   r < 0 ==> published == [] && outcomes == [r]
      ensures verify == BySignature && crash == Alive && IsDone() && !raw.etagExists ==>
                && checksum != null && signature != null
                && var r := verifier(Some(raw.digest(raw.received)), Some(checksum.payload), Some(signature.payload));
                   r < 0 ==> published == [] && outcomes == [r]
      ensures AnyFailed() ==> published == []
    {
      hide ImportJob.Inv, ImportJob.Downloaded, Story, Fed, Qcow2Convert.RawImage, Qcow2Format.FaithfulIff;
      DeliverAll(steps);
      Consequences();
    }
  }

  /** A server that sends six bytes of a body: the image is opened. */
  method FirstBytes(decode: Decoder, digest: Bytes -> Bytes,
                    verifier: (Option<Bytes>, Option<Bytes>, Option<Bytes>) -> int, inflate: Bytes -> Option<Bytes>)
    returns (i: RawImport)
    requires DecoderOk(decode)
    ensures i.Inv() && i.crash == Alive && i.local && i.verify == NoVerify && i.raw.state == Running && i.raw.disk.Some?
    ensures fresh(i) && fresh(i.raw)
  {
    hide DecoderOk, ImportJob.Inv, Detect;
    i := new RawImport(NoVerify, true, {}, decode, digest, verifier, inflate, [0, 0, 0]);
    assert i.raw in i.Jobs();
    var body := [0, 0, 0, 0, 0, 0];
    PlainBody(body);
    i.Deliver(i.raw, Body(body, Env(true, None, true, 0)), Final(0, 0, 0, 0, 0));
    i.raw.RunningMeans();
  }

  lemma PlainBody(body: Bytes)
    requires |body| == STUB && body[0] == 0
    ensures [] + body == body && body[..STUB] == body && Detect(body) == Uncompressed
  {
    assert XZ_SIGNATURE[0] != 0 && GZIP_SIGNATURE[0] != 0 && BZIP2_SIGNATURE[0] != 0;
    assert body[..6][0] == 0 && body[..2][0] == 0 && body[..3][0] == 0;
  }

  /** It then sends one more header line. */
  method LateHeader(decode: Decoder, digest: Bytes -> Bytes,
                    verifier: (Option<Bytes>, Option<Bytes>, Option<Bytes>) -> int, inflate: Bytes -> Option<Bytes>)
    returns (i: RawImport)
    requires DecoderOk(decode)
    ensures i.crash == HeaderAfterBody
  {
    hide DecoderOk, ImportJob.Inv;
    i := FirstBytes(decode, digest, verifier, inflate);
    assert i.raw in i.Jobs();
    i.Deliver(i.raw, Header(OtherHeader(0)), Final(0, 0, 0, 0, 0));
  }

  /** Or it says that an older download serves, and making the local copy runs into an assertion. */
  method LateNotModified(decode: Decoder, digest: Bytes -> Bytes,
                         verifier: (Option<Bytes>, Option<Bytes>, Option<Bytes>) -> int,
                         inflate: Bytes -> Option<Bytes>)
    returns (i: RawImport)
    requires DecoderOk(decode)
    ensures i.crash == DiskStillOpen
  {
    hide DecoderOk, ImportJob.Inv;
    i := FirstBytes(decode, digest, verifier, inflate);
    assert i.raw in i.Jobs();
    i.Deliver(i.raw, Finished(Status(304, 0)), Final(0, 0, 0, 0, 0));
  }
}

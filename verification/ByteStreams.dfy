/** Reading an artifact twice, once to hash it and once to send it, under any
    schedule of short reads, failures, cancellations and refused sends, from a
    file that another process may be changing. */
module ByteStreams {
  import opened Seqs

  const DIGEST_BUFFER: nat := 64 * 1024
  const MAX_ARTIFACT_FRAME_BYTES: nat := 1_048_576

  datatype Frame = Header(bytes: nat, digest: string) | Data(payload: string) | ObjectEnd

  datatype ReadOutcome = Complete | Closed | Refused(reason: string) | Cancelled

  /** The file as the reads find it: `versions(k)` is its content at read `k`,
      `sizes(k)` how much that read would like to return, `fails(k)` an error. */
  class Source {
    const versions: nat -> string
    const sizes: nat -> nat
    const fails: nat -> bool
    var pos: nat
    var turn: nat

    constructor (versions: nat -> string, sizes: nat -> nat, fails: nat -> bool)
      ensures this.versions == versions && this.sizes == sizes && this.fails == fails
      ensures pos == 0 && turn == 0
    {
      this.versions, this.sizes, this.fails, pos, turn := versions, sizes, fails, 0, 0;
    }

    /** A read returns between one byte and what was asked, nothing only at the
        end of the file; `None` is an I/O error. */
    method Read(want: nat) returns (got: Option<string>)
      requires want > 0
      modifies this
      ensures turn == old(turn) + 1
      ensures got.None? <==> fails(old(turn))
      ensures got.None? ==> pos == old(pos)
      ensures got.Some? ==>
                var file := versions(old(turn));
                && |got.value| <= want
                && (got.value == [] <==> old(pos) >= |file|)
                && pos == old(pos) + |got.value|
                && (got.value != [] ==> pos <= |file| && got.value == file[old(pos)..pos])
    {
      var k := turn;
      turn := turn + 1;
      if fails(k) { return None; }
      var file := versions(k);
      if pos >= |file| { return Some([]); }
      var most := if want <= |file| - pos then want else |file| - pos;
      var n := if 0 < sizes(k) <= most then sizes(k) else most;
      got := Some(file[pos..pos + n]);
      pos := pos + n;
    }

    method Rewind()
      modifies this`pos
      ensures pos == 0
    {
      pos := 0;
    }

    /** Nobody changes the file from now on. */
    ghost predicate Unchanging(file: string)
      reads this
    {
      forall k :: k >= turn ==> versions(k) == file
    }
  }

  /** The three cancellation tokens, sampled at each check. */
  class Control {
    const cancelledAt: nat -> bool
    var checks: nat

    constructor (cancelledAt: nat -> bool)
      ensures this.cancelledAt == cancelledAt && checks == 0
    {
      this.cancelledAt, checks := cancelledAt, 0;
    }

    method Cancelled() returns (cancelled: bool)
      modifies this
      ensures checks == old(checks) + 1 && cancelled == cancelledAt(old(checks))
    {
      cancelled := cancelledAt(checks);
      checks := checks + 1;
    }
  }

  /** The bounded channel to the uploader: a send is delivered or refused. */
  class Channel {
    const accepts: nat -> bool
    var sends: nat
    var delivered: seq<Frame>

    constructor (accepts: nat -> bool)
      ensures this.accepts == accepts && sends == 0 && delivered == []
    {
      this.accepts, sends, delivered := accepts, 0, [];
    }

    method Send(frame: Frame) returns (ok: bool)
      modifies this
      ensures sends == old(sends) + 1 && ok == accepts(old(sends))
      ensures delivered == if ok then old(delivered) + [frame] else old(delivered)
    {
      ok := accepts(sends);
      sends := sends + 1;
      if ok { delivered := delivered + [frame]; }
    }
  }

  function Payload(frames: seq<Frame>): (bytes: string)
  {
    if frames == [] then []
    else
      var last := frames[|frames| - 1];
      Payload(frames[..|frames| - 1]) + (if last.Data? then last.payload else [])
  }

  lemma PayloadSnoc(frames: seq<Frame>, frame: Frame)
    ensures Payload(frames + [frame]) == Payload(frames) + (if frame.Data? then frame.payload else [])
  {
    assert (frames + [frame])[..|frames|] == frames;
  }

  /** Nonempty data frames within the frame bound. */
  predicate DataOnly(frames: seq<Frame>)
  {
    forall i :: 0 <= i < |frames| ==> frames[i].Data? && 0 < |frames[i].payload| <= MAX_ARTIFACT_FRAME_BYTES
  }

  lemma NoFrames()
    ensures DataOnly([]) && Payload([]) == []
  {
  }

  lemma AddFrame(data: seq<Frame>, bytes: string)
    requires DataOnly(data) && 0 < |bytes| <= MAX_ARTIFACT_FRAME_BYTES
    ensures DataOnly(data + [Data(bytes)]) && Payload(data + [Data(bytes)]) == Payload(data) + bytes
  {
    PayloadSnoc(data, Data(bytes));
  }

  /** No read fails and nothing is cancelled from the current point on. */
  ghost predicate Quiet(source: Source, control: Control)
    reads source, control
  {
    && (forall k :: k >= source.turn ==> !source.fails(k))
    && (forall k :: k >= control.checks ==> !control.cancelledAt(k))
  }

  /** Nothing goes wrong from the current point on. */
  ghost predicate Calm(source: Source, control: Control, channel: Channel)
    reads source, control, channel
  {
    Quiet(source, control) && forall k :: k >= channel.sends ==> channel.accepts(k)
  }

  /** `hash` of the first `bytes` bytes, provided the file ends there. */
  method DigestReader(hash: string -> string, source: Source, bytes: nat, control: Control, ghost file: string)
    returns (digest: Result<string, string>)
    modifies source, control
    ensures digest.Ok? ==> source.pos == 0
    ensures digest.Ok? ==> exists seen :: |seen| == bytes && digest.value == hash(seen)
    ensures old(source.Unchanging(file)) && digest.Ok? ==> |file| == bytes && digest.value == hash(file)
    ensures digest.Err? ==> digest.error in {"cancelled", "changed_length", "unreadable"}
    ensures old(source.Unchanging(file)) && digest == Err("changed_length") ==> |file| != bytes
    ensures old(source.Unchanging(file)) && old(Quiet(source, control)) ==>
              digest == if |file| == bytes then Ok(hash(file)) else Err("changed_length")
    ensures source.turn >= old(source.turn) && control.checks >= old(control.checks)
  {
    source.Rewind();
    var seen := "";
    var remaining: nat := bytes;
    while remaining > 0
      invariant |seen| + remaining == bytes && source.pos == |seen|
      invariant source.turn >= old(source.turn) && control.checks >= old(control.checks)
      invariant old(source.Unchanging(file)) ==> |seen| <= |file| && seen == file[..|seen|]
    {
      var cancelled := control.Cancelled();
      if cancelled { return Err("cancelled"); }
      var want := if remaining <= DIGEST_BUFFER then remaining else DIGEST_BUFFER;
      var got := source.Read(want);
      if got.None? { return Err("unreadable"); }
      cancelled := control.Cancelled();
      if cancelled { return Err("cancelled"); }
      if got.value == [] { return Err("changed_length"); }
      remaining := remaining - |got.value|;
      seen := seen + got.value;
    }
    var cancelled := control.Cancelled();
    if cancelled { return Err("cancelled"); }
    var probe := source.Read(1);
    if probe.None? { return Err("unreadable"); }
    if probe.value != [] { return Err("changed_length"); }
    cancelled := control.Cancelled();
    if cancelled { return Err("cancelled"); }
    source.Rewind();
    assert old(source.Unchanging(file)) ==> seen == file[..|seen|];
    assert old(source.Unchanging(file)) ==> |file| == bytes && file[..|file|] == file;
    digest := Ok(hash(seen));
  }

  /** The sending loop: `None` once all `bytes` bytes are sent. */
  method SendBytes(source: Source, bytes: nat, control: Control, channel: Channel, ghost file: string)
    returns (stopped: Option<Result<ReadOutcome, string>>, ghost data: seq<Frame>)
    modifies source, control, channel
    ensures DataOnly(data) && |Payload(data)| <= bytes
    ensures channel.delivered == old(channel.delivered) + data
    ensures stopped != Some(Ok(Complete))
    ensures source.turn >= old(source.turn) && control.checks >= old(control.checks) && channel.sends >= old(channel.sends)
    ensures stopped.None? ==> |Payload(data)| == bytes && source.pos == old(source.pos) + bytes
    ensures old(source.pos) == 0 && old(source.Unchanging(file)) ==> Payload(data) <= file
    ensures old(source.pos) == 0 && old(source.Unchanging(file)) && old(Calm(source, control, channel)) ==>
              stopped == if |file| >= bytes then None else Some(Ok(Refused("changed_length")))
  {
    hide Payload, DataOnly;
    NoFrames();
    ghost var before := channel.delivered;
    data := [];
    var remaining: nat := bytes;
    while remaining > 0
      invariant DataOnly(data) && |Payload(data)| + remaining == bytes
      invariant channel.delivered == before + data
      invariant source.pos == old(source.pos) + |Payload(data)|
      invariant source.turn >= old(source.turn) && control.checks >= old(control.checks) && channel.sends >= old(channel.sends)
      invariant old(source.pos) == 0 && old(source.Unchanging(file)) ==> Payload(data) <= file
    {
      var cancelled := control.Cancelled();
      if cancelled { return Some(Ok(Cancelled)), data; }
      var want := if remaining <= MAX_ARTIFACT_FRAME_BYTES then remaining else MAX_ARTIFACT_FRAME_BYTES;
      var got := source.Read(want);
      if got.None? { return Some(Err("unreadable")), data; }
      cancelled := control.Cancelled();
      if cancelled { return Some(Ok(Cancelled)), data; }
      if got.value == [] { return Some(Ok(Refused("changed_length"))), data; }
      remaining := remaining - |got.value|;
      var sent := channel.Send(Data(got.value));
      if !sent { return Some(Ok(Closed)), data; }
      AddFrame(data, got.value);
      data := data + [Data(got.value)];
      assert before + data == channel.delivered;
    }
    stopped := None;
  }

  /** Sends exactly `bytes` bytes in nonempty bounded frames, then the object
      end once the file is seen to end there. */
  method StreamReader(source: Source, bytes: nat, control: Control, channel: Channel, ghost file: string)
    returns (outcome: Result<ReadOutcome, string>, ghost data: seq<Frame>)
    modifies source, control, channel
    ensures DataOnly(data) && |Payload(data)| <= bytes
    ensures channel.delivered == old(channel.delivered) + data + (if outcome == Ok(Complete) then [ObjectEnd] else [])
    ensures outcome == Ok(Complete) ==>
              |Payload(data)| == bytes && source.turn > 0 && source.pos >= |source.versions(source.turn - 1)|
    ensures old(source.pos) == 0 && old(source.Unchanging(file)) ==>
              Payload(data) <= file && (outcome == Ok(Complete) ==> Payload(data) == file)
    ensures old(source.pos) == 0 && old(source.Unchanging(file)) && old(Calm(source, control, channel)) ==>
              outcome == Ok(if |file| == bytes then Complete else Refused("changed_length"))
  {
    hide Payload, DataOnly;
    var stopped;
    stopped, data := SendBytes(source, bytes, control, channel, file);
    if stopped.Some? { return stopped.value, data; }
    var cancelled := control.Cancelled();
    if cancelled { return Ok(Cancelled), data; }
    var probe := source.Read(1);
    if probe.None? { return Err("unreadable"), data; }
    if probe.value != [] { return Ok(Refused("changed_length")), data; }
    cancelled := control.Cancelled();
    if cancelled { return Ok(Cancelled), data; }
    var sent := channel.Send(ObjectEnd);
    if !sent { return Ok(Closed), data; }
    outcome := Ok(Complete);
  }

  /** The controller's reading of an object's frames after the header: bounded
      data, then one explicit end, then nothing. */
  predicate Stages(frames: seq<Frame>, ended: bool)
  {
    if frames == [] then ended
    else match frames[0]
      case Data(payload) => !ended && |payload| <= MAX_ARTIFACT_FRAME_BYTES && Stages(frames[1..], false)
      case ObjectEnd => !ended && Stages(frames[1..], true)
      case Header(_, _) => false
  }

  /** The controller's loop finishes for exactly one shape: bounded data frames,
      then one end, and nothing after it. */
  lemma {:induction false} StagesExact(frames: seq<Frame>)
    ensures Stages(frames, false) <==>
            && frames != [] && frames[|frames| - 1] == ObjectEnd
            && forall i :: 0 <= i < |frames| - 1 ==> frames[i].Data? && |frames[i].payload| <= MAX_ARTIFACT_FRAME_BYTES
  {
    if frames != [] {
      var rest := frames[1..];
      StagesExact(rest);
      AfterEnd(rest);
      assert forall i :: 0 < i < |frames| ==> frames[i] == rest[i - 1];
      if rest != [] { assert frames[|frames| - 1] == rest[|rest| - 1]; }
      if |frames| > 1 && frames[|frames| - 1] == ObjectEnd &&
         forall i :: 0 <= i < |frames| - 1 ==> frames[i].Data? && |frames[i].payload| <= MAX_ARTIFACT_FRAME_BYTES {
        assert frames[0].Data?;
        assert forall i :: 0 <= i < |rest| - 1 ==> rest[i] == frames[i + 1];
      }
    }
  }

  lemma AfterEnd(frames: seq<Frame>)
    ensures Stages(frames, true) <==> frames == []
  {
  }

  /** Data alone is never staged; data and one end always is. */
  lemma {:induction false} StagesWithEnd(data: seq<Frame>)
    requires DataOnly(data)
    ensures !Stages(data, false) && Stages(data + [ObjectEnd], false)
  {
    if data == [] {
      assert data + [ObjectEnd] == [ObjectEnd] && [ObjectEnd][1..] == [];
    } else {
      assert data[0].Data?;
      StagesWithEnd(data[1..]);
      assert (data + [ObjectEnd])[1..] == data[1..] + [ObjectEnd];
    }
  }

  lemma NoEndInData(data: seq<Frame>)
    requires DataOnly(data)
    ensures ObjectEnd !in data
  {
  }

  /** The reader task: hash, announce, send. What arrives complete from a file
      nobody changes is that file under its own hash, however the reads fell.
      `heard`: the uploader still waits for the word that the digest is ready. */
  method ReaderTask(hash: string -> string, source: Source, bytes: nat, control: Control, channel: Channel, heard: bool, ghost file: string)
    returns (outcome: ReadOutcome, ghost data: seq<Frame>, ghost digest: string)
    requires channel.delivered == []
    modifies source, control, channel
    ensures ObjectEnd in channel.delivered <==> outcome == Complete
    ensures channel.delivered != [] ==>
              channel.delivered[0] == Header(bytes, digest) && exists seen :: |seen| == bytes && digest == hash(seen)
    ensures channel.delivered != [] && old(source.Unchanging(file)) ==> digest == hash(file)
    ensures channel.delivered != [] ==> (Stages(channel.delivered[1..], false) <==> outcome == Complete)
    ensures outcome == Complete ==>
              && channel.delivered == [Header(bytes, digest)] + data + [ObjectEnd]
              && DataOnly(data) && |Payload(data)| == bytes
    ensures old(source.Unchanging(file)) && outcome == Complete ==>
              Payload(data) == file && digest == hash(Payload(data))
    ensures old(source.Unchanging(file)) && old(Calm(source, control, channel)) && heard ==>
              outcome == if |file| == bytes then Complete else Refused("changed_length")
  {
    hide Payload, DataOnly, Stages;
    data, digest := [], "";
    var hashed := DigestReader(hash, source, bytes, control, file);
    if hashed.Err? {
      return Refused(hashed.error), data, digest;
    }
    digest := hashed.value;
    if !heard { return Closed, data, digest; }
    var sent := channel.Send(Header(bytes, hashed.value));
    if !sent { return Closed, data, digest; }
    var read;
    read, data := StreamReader(source, bytes, control, channel, file);
    outcome := match read case Ok(o) => o case Err(e) => Refused(e);
    NoEndInData(data);
    StagesWithEnd(data);
    assert data + [] == data;
    assert channel.delivered[1..] == data + (if outcome == Complete then [ObjectEnd] else []);
    if outcome == Complete { assert channel.delivered[|channel.delivered| - 1] == ObjectEnd; }
  }
}

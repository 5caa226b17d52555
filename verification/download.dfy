/**
  The whole single-file download: the optional probe, the transfer request
  with its `Range` header, the progress bar's length and position, the open
  mode of the target file and the copy loop.
 */
module Download {
  import opened Wrappers
  import opened Http
  import opened Filename
  import opened Resume
  import opened Transfer

  /** The response to the transfer request together with the chunks its body is read in. */
  datatype Exchange = Exchange(response: Response, body: seq<seq<byte>>)

  /** The transfer request as sent: only its `Range` header matters here. */
  datatype Request = Request(range: Option<string>)

  /** The numeric state of a progress bar. */
  datatype Bar = Bar(length: nat, position: nat)

  /** The position the transfer resumes from; zero when it starts afresh. */
  function ResumePosition(tryResume: bool, probe: Option<Response>, fs: FileSystem): nat {
    match PlanResume(tryResume, probe, fs)
    case Success(Fetch(position, _)) => position
    case _ => 0
  }

  /** The length the probe reported, as recorded by the plan. */
  function HeadLength(tryResume: bool, probe: Option<Response>, fs: FileSystem): nat {
    match PlanResume(tryResume, probe, fs)
    case Success(Fetch(_, length)) => length
    case _ => 0
  }

  predicate Skips(tryResume: bool, probe: Option<Response>, fs: FileSystem) {
    PlanResume(tryResume, probe, fs).Success? && PlanResume(tryResume, probe, fs).value.Skip?
  }

  /** The filename the transfer response resolves to, when it was received and resolves. */
  function TransferName(transfer: Option<Exchange>): Option<string> {
    if transfer.Some? && ParseFilename(transfer.value.response).Success?
    then Some(ParseFilename(transfer.value.response).value)
    else None
  }

  /**
    Opening the target succeeds unless the I/O fails, the name is empty, or
    a resumed transfer finds no file to append to (append mode does not create).
   */
  predicate OpenSucceeds(name: string, resumePosition: nat, fs: FileSystem, faults: Faults) {
    !faults.openFails && name != "" && (resumePosition > 0 ==> name in fs)
  }

  /** The transfer response names the target and the target opens. */
  predicate Opens(resumePosition: nat, transfer: Option<Exchange>, fs: FileSystem, faults: Faults) {
    TransferName(transfer).Some? && OpenSucceeds(TransferName(transfer).value, resumePosition, fs, faults)
  }

  /**
    What the transfer phase promises, from the moment the request is sent,
    about its outcome `result`, the files `fs'` and the bar `bar`, given the
    resume position, the probe's length, the transfer response, the files
    before and the faults.
   */
  predicate TransferPhase(resumePosition: nat, headContentLength: nat, transfer: Option<Exchange>,
                          fs: FileSystem, faults: Faults,
                          result: Result<string, Error>, fs': FileSystem, bar: Option<Bar>)
  {
    && (transfer.None? ==> result == Failure(SendFailed) && fs' == fs)
    && (transfer.Some? && ParseFilename(transfer.value.response).Failure? ==>
          result == Failure(ParseFilename(transfer.value.response).error) && fs' == fs)
    // the bar appears once the name is known; its length is the probe's when resuming
    && (bar.Some? <==> TransferName(transfer).Some?)
    && (bar.Some? ==>
          bar.value.length ==
            (if resumePosition > 0 then headContentLength else transfer.value.response.contentLength.GetOr(0)))
    // opening the target: create mode at position zero, append mode otherwise
    && (TransferName(transfer).Some? && !OpenSucceeds(TransferName(transfer).value, resumePosition, fs, faults) ==>
          && result == Failure(OpenFailed(TransferName(transfer).value)) && fs' == fs
          && bar.value.position == resumePosition)
    // success depends on the I/O only, never on the advertised length
    && (Opens(resumePosition, transfer, fs, faults) ==>
          (result.Success? <==>
             ReadsSucceed(transfer.value.body, faults) && WritesSucceed(transfer.value.body, faults) &&
             !faults.flushFails))
    // once opened, the target holds its opening contents followed by a prefix of the payload
    && (Opens(resumePosition, transfer, fs, faults) ==>
          var name := TransferName(transfer).value;
          var initial := if resumePosition > 0 then fs[name] else [];
          && name in fs'
          && |initial| <= |fs'[name]|
          && fs'[name][..|initial|] == initial
          && fs'[name][|initial|..] <= Payload(transfer.value.body))
    // a failed read leaves exactly the chunks before it, all counted on the bar
    && (Opens(resumePosition, transfer, fs, faults) &&
        faults.readFailsAt.Some? && faults.readFailsAt.value <= EndIndex(transfer.value.body) &&
        (faults.writeFailsAt.None? || faults.writeFailsAt.value >= faults.readFailsAt.value) ==>
          var name := TransferName(transfer).value;
          var initial := if resumePosition > 0 then fs[name] else [];
          && result == Failure(ReadFailed)
          && name in fs'
          && fs'[name] == initial + Flatten(transfer.value.body[..faults.readFailsAt.value])
          && bar.value.position == resumePosition + TotalSize(transfer.value.body[..faults.readFailsAt.value]))
    // a failed write reports itself; its chunk was already counted on the bar
    && (Opens(resumePosition, transfer, fs, faults) &&
        faults.writeFailsAt.Some? && faults.writeFailsAt.value < EndIndex(transfer.value.body) &&
        (faults.readFailsAt.None? || faults.readFailsAt.value > faults.writeFailsAt.value) ==>
          && result == Failure(WriteFailed(TransferName(transfer).value))
          && bar.value.position == resumePosition + TotalSize(transfer.value.body[..faults.writeFailsAt.value + 1]))
    // a failed flush reports itself after every byte was counted
    && (Opens(resumePosition, transfer, fs, faults) &&
        ReadsSucceed(transfer.value.body, faults) && WritesSucceed(transfer.value.body, faults) &&
        faults.flushFails ==>
          && result == Failure(FlushFailed(TransferName(transfer).value))
          && bar.value.position == resumePosition + |Payload(transfer.value.body)|)
    // a completed transfer: the file is the old contents (resume) or nothing (fresh), then the payload
    && (result.Success? ==>
          && Opens(resumePosition, transfer, fs, faults)
          && Some(result.value) == TransferName(transfer)
          && result.value in fs'
          && fs'[result.value] == (if resumePosition > 0 then fs[result.value] else []) + Payload(transfer.value.body)
          && bar.value.position == resumePosition + |Payload(transfer.value.body)|)
    // no other file is touched
    && (forall n :: n in fs && Some(n) != TransferName(transfer) ==> n in fs' && fs'[n] == fs[n])
    && (forall n :: n in fs' && Some(n) != TransferName(transfer) ==> n in fs)
  }

  /**
    The transfer phase, from the moment the request is sent: resolve the
    name again from the transfer response, show the bar, open the target in
    create mode (position zero) or append mode, copy the body and flush.
    `headContentLength` is the probe's length, shown when resuming.
   */
  method RunTransfer(resumePosition: nat, headContentLength: nat, transfer: Option<Exchange>,
                     fs: FileSystem, faults: Faults)
    returns (result: Result<string, Error>, fs': FileSystem, bar: Option<Bar>)
    ensures TransferPhase(resumePosition, headContentLength, transfer, fs, faults, result, fs', bar)
  {
    fs' := fs;
    bar := None;
    if transfer.None? {
      result := Failure(SendFailed);
      return;
    }
    var response := transfer.value.response;
    var parsed := ParseFilename(response);
    if parsed.Failure? {
      result := Failure(parsed.error);
      return;
    }
    var name := parsed.value;

    var remainingContentLength := response.contentLength.GetOr(0);
    var totalContentLength := if resumePosition > 0 then headContentLength else remainingContentLength;
    bar := Some(Bar(totalContentLength, resumePosition));

    var prefix: seq<byte>;
    if resumePosition == 0 {
      // create mode truncates
      if faults.openFails || name == "" {
        result := Failure(OpenFailed(name));
        return;
      }
      prefix := [];
    } else {
      // append mode requires the file to exist
      if faults.openFails || name == "" || name !in fs {
        result := Failure(OpenFailed(name));
        return;
      }
      prefix := fs[name];
    }

    var status, written, progress := CopyBody(name, prefix, resumePosition, transfer.value.body, faults);
    // the bar counts exactly the payload's bytes
    FlattenSize(transfer.value.body[..EndIndex(transfer.value.body)]);
    fs' := fs[name := written];
    bar := Some(Bar(totalContentLength, progress));
    if status.Failure? {
      result := Failure(status.error);
      return;
    }
    result := Success(name);
  }

  /**
    Download one file. `probe` is the response to the probe request and
    `transfer` the response to the transfer request, each None when sending
    failed; `fs` is the local file system and `faults` says which file
    operations fail. Returns the outcome, the file system afterwards, the
    transfer request if one was built, and the progress bar if one was shown.
    Once the request is built, the transfer phase keeps `TransferPhase` at
    the plan's resume position and probe length.
   */
  method DownloadFile(tryResume: bool, probe: Option<Response>, transfer: Option<Exchange>,
                      fs: FileSystem, faults: Faults)
    returns (result: Result<string, Error>, fs': FileSystem, request: Option<Request>, bar: Option<Bar>)
    // the probe phase fails the download or decides it is already complete
    ensures PlanResume(tryResume, probe, fs).Failure? ==>
              result == Failure(PlanResume(tryResume, probe, fs).error) && request.None? && bar.None? && fs' == fs
    ensures request.None? && result.Success? <==> Skips(tryResume, probe, fs)
    ensures Skips(tryResume, probe, fs) ==>
              && result == ParseFilename(probe.value)
              && fs' == fs && bar.None?
              && |fs[result.value]| == probe.value.contentLength.GetOr(0)
    // without resume, or without `accept-ranges`, the transfer starts from byte zero
    ensures !tryResume || (probe.Some? && !probe.value.acceptRanges && ParseFilename(probe.value).Success?) ==>
              request == Some(Request(None))
    // every other plan sends the request, with a `Range` header exactly when resuming
    ensures request.Some? <==> PlanResume(tryResume, probe, fs).Success? && !Skips(tryResume, probe, fs)
    ensures request.Some? ==> request.value.range == RangeHeader(ResumePosition(tryResume, probe, fs))
    ensures request.Some? ==>
              (request.value.range.Some? <==> ResumePosition(tryResume, probe, fs) > 0)
    ensures request.Some? && request.value.range.Some? ==>
              ParseRange(request.value.range.value) == Some(ResumePosition(tryResume, probe, fs))
    ensures bar.Some? ==> request.Some?
    // from there on the outcome is the transfer phase's
    ensures request.Some? ==>
              TransferPhase(ResumePosition(tryResume, probe, fs), HeadLength(tryResume, probe, fs),
                            transfer, fs, faults, result, fs', bar)
    // no other file is touched
    ensures forall n :: n in fs && Some(n) != TransferName(transfer) ==> n in fs' && fs'[n] == fs[n]
    ensures forall n :: n in fs' && Some(n) != TransferName(transfer) ==> n in fs
  {
    fs' := fs;
    request := None;
    bar := None;

    var plan := PlanResume(tryResume, probe, fs);
    if plan.Failure? {
      result := Failure(plan.error);
      return;
    }
    if plan.value.Skip? {
      result := Success(plan.value.name);
      return;
    }
    var resumePosition := plan.value.resumePosition;
    request := Some(Request(RangeHeader(resumePosition)));
    result, fs', bar := RunTransfer(resumePosition, plan.value.headContentLength, transfer, fs, faults);
  }
}

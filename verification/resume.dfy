/**
  Resume planning: from the resume flag, the probe response and the local
  files, decide where the transfer starts, or that there is nothing to fetch;
  and the `Range` header a resumed transfer carries.
 */
module Resume {
  import opened Wrappers
  import opened Http
  import opened Filename

  /**
    The outcome of the probe phase: either the file is already complete and
    the transfer is skipped, or the transfer starts at `resumePosition`
    with `headContentLength` as the length the probe reported.
   */
  datatype Plan = Skip(name: string) | Fetch(resumePosition: nat, headContentLength: nat)

  /** The plan of a fresh download from byte zero. */
  const FromScratch: Plan := Fetch(0, 0)

  /**
    The probe phase. `probe` is the response to the probe request, None when
    sending it failed; it is only consulted when `tryResume` holds. The
    probe's length is recorded only when a local file of the probe's name
    exists (the empty name never names one), and a missing length counts as zero there, so an empty local
    file and a length-less probe make the download count as complete.
   */
  function PlanResume(tryResume: bool, probe: Option<Response>, fs: FileSystem): (p: Result<Plan, Error>)
    ensures !tryResume ==> p == Success(FromScratch)
    ensures tryResume ==> (p.Failure? <==> probe.None? || ParseFilename(probe.value).Failure?)
    ensures tryResume && probe.None? ==> p == Failure(SendFailed)
    ensures tryResume && probe.Some? && ParseFilename(probe.value).Failure? ==> p == Failure(ParseFilename(probe.value).error)
    ensures tryResume && probe.Some? && !probe.value.acceptRanges && ParseFilename(probe.value).Success? ==>
              p == Success(FromScratch)
    ensures tryResume && probe.Some? && ParseFilename(probe.value).Success? &&
            (ParseFilename(probe.value).value == "" || ParseFilename(probe.value).value !in fs) ==>
              p == Success(FromScratch)
    ensures tryResume && probe.Some? && probe.value.acceptRanges && ParseFilename(probe.value).Success? &&
            ParseFilename(probe.value).value != "" && ParseFilename(probe.value).value in fs &&
            |fs[ParseFilename(probe.value).value]| != probe.value.contentLength.GetOr(0) ==>
              p == Success(Fetch(|fs[ParseFilename(probe.value).value]|, probe.value.contentLength.GetOr(0)))
    ensures p.Success? && p.value.Skip? <==>
              && tryResume && probe.Some? && probe.value.acceptRanges
              && ParseFilename(probe.value).Success?
              && ParseFilename(probe.value).value != ""
              && ParseFilename(probe.value).value in fs
              && |fs[ParseFilename(probe.value).value]| == probe.value.contentLength.GetOr(0)
    ensures p.Success? && p.value.Skip? ==> p.value.name == ParseFilename(probe.value).value
    ensures p.Success? && p.value.Fetch? && p.value != FromScratch ==>
              && tryResume && probe.Some? && probe.value.acceptRanges
              && ParseFilename(probe.value).Success?
              && ParseFilename(probe.value).value != ""
              && ParseFilename(probe.value).value in fs
              && p.value.resumePosition == |fs[ParseFilename(probe.value).value]|
              && p.value.headContentLength == probe.value.contentLength.GetOr(0)
              && p.value.headContentLength != p.value.resumePosition
  {
    if !tryResume then Success(FromScratch)
    else
      match probe
      case None => Failure(SendFailed)
      case Some(head) =>
        var name :- ParseFilename(head);
        // the metadata of the empty path cannot be read
        if !head.acceptRanges || name == "" || name !in fs then Success(FromScratch)
        else
          var local := |fs[name]|;
          var length := head.contentLength.GetOr(0);
          if length == local then Success(Skip(name)) else Success(Fetch(local, length))
  }

  /** An existing empty local file and a probe without a length skip the download. */
  lemma EmptyFileWithoutLengthIsComplete(probe: Response, fs: FileSystem)
    requires probe.acceptRanges && probe.contentLength.None?
    requires ParseFilename(probe).Success? && ParseFilename(probe).value != "" && ParseFilename(probe).value in fs
    requires fs[ParseFilename(probe).value] == []
    ensures PlanResume(true, Some(probe), fs) == Success(Skip(ParseFilename(probe).value))
  {
  }

  /**
    The resume position is not bounded by the probe's length: a local file
    longer than the server's resource is resumed past its end.
   */
  lemma ResumeMayPassLength()
    ensures var probe := Response(None, Some(["fw.bin"]), Some(3), true);
            PlanResume(true, Some(probe), map["fw.bin" := [0, 0, 0, 0, 0]]) == Success(Fetch(5, 3))
  {
  }

  /** The empty name is never stat-ed as a local file, even if the map holds it. */
  lemma EmptyNameNeverResumes()
    ensures var probe := Response(None, Some(["files", ""]), Some(3), true);
            PlanResume(true, Some(probe), map["" := [1, 2, 3]]) == Success(FromScratch)
  {
  }

  predicate IsDigit(c: char) {
    '0' <= c <= '9'
  }

  predicate AllDigits(s: string) {
    forall k :: 0 <= k < |s| ==> IsDigit(s[k])
  }

  /** The decimal rendering of `n`, as Rust's `{}` formats an unsigned integer. */
  function Decimal(n: nat): (s: string)
    ensures |s| > 0 && AllDigits(s)
    ensures |s| > 1 ==> s[0] != '0'
  {
    if n < 10 then [(n as char) + '0']
    else Decimal(n / 10) + [((n % 10) as char) + '0']
  }

  /** The value of a string of decimal digits. */
  function ParseDecimal(s: string): nat
    requires AllDigits(s)
  {
    if s == [] then 0
    else ParseDecimal(s[..|s| - 1]) * 10 + ((s[|s| - 1] - '0') as nat)
  }

  lemma {:induction false} DecimalRoundTrip(n: nat)
    ensures ParseDecimal(Decimal(n)) == n
  {
    var s := Decimal(n);
    if n >= 10 {
      assert s[..|s| - 1] == Decimal(n / 10);
      DecimalRoundTrip(n / 10);
    }
  }

  /** The value of a `Range` header of the form `bytes=<n>-`, if it has that form. */
  function ParseRange(h: string): Option<nat> {
    if |h| >= 8 && h[..6] == "bytes=" && h[|h| - 1] == '-' && AllDigits(h[6..|h| - 1])
    then Some(ParseDecimal(h[6..|h| - 1]))
    else None
  }

  /** The `Range` header of the transfer request: present exactly when resuming. */
  function RangeHeader(resumePosition: nat): (h: Option<string>)
    ensures h.Some? <==> resumePosition > 0
    ensures h.Some? ==> ParseRange(h.value) == Some(resumePosition)
  {
    if resumePosition > 0 then
      var digits := Decimal(resumePosition);
      var h := "bytes=" + digits + "-";
      assert h[..6] == "bytes=" && h[6..|h| - 1] == digits;
      DecimalRoundTrip(resumePosition);
      Some(h)
    else None
  }
}

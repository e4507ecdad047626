/** Several verifiers for one proof: registration, the report, and the combined verdict. */
module VerifierService {
  import opened Outcomes
  import opened Requests

  datatype Registration = Registration(
    humanLabel: string,
    backend: string,
    verify: VerificationRequest -> Result<VerificationOutcome, VerifierError>)

  datatype VerifierResult = VerifierResult(humanLabel: string, outcome: VerificationOutcome)

  type Report = seq<VerifierResult>

  datatype ServiceError = UnknownBackend(backend: string) | VerifierFailed(humanLabel: string)

  // ---------- Running the verifiers ----------

  function ServedBy(regs: seq<Registration>, backend: string): seq<Registration> {
    if regs == [] then []
    else (if regs[0].backend == backend then [regs[0]] else []) + ServedBy(regs[1..], backend)
  }

  function HumanLabels(regs: seq<Registration>): seq<string> {
    seq(|regs|, i requires 0 <= i < |regs| => regs[i].humanLabel)
  }

  /** Each verifier's answer in turn, up to the first that cannot run. */
  function RunEach(served: seq<Registration>, request: VerificationRequest): Result<Report, ServiceError> {
    if served == [] then Ok([])
    else
      var outcome := served[0].verify(request);
      if outcome.Err? then Err(VerifierFailed(served[0].humanLabel))
      else
        var rest :- RunEach(served[1..], request);
        Ok([VerifierResult(served[0].humanLabel, outcome.value)] + rest)
  }

  function VerifyWith(regs: seq<Registration>, request: VerificationRequest): Result<Report, ServiceError> {
    var served := ServedBy(regs, request.backend);
    if served == [] then Err(UnknownBackend(request.backend)) else RunEach(served, request)
  }

  function AppendTo(done: Report, rest: Result<Report, ServiceError>): Result<Report, ServiceError> {
    if rest.Ok? then Ok(done + rest.value) else rest
  }

  class VerificationService {
    var byBackend: seq<Registration>

    constructor ()
      ensures byBackend == []
    {
      byBackend := [];
    }

    method Register(registration: Registration)
      modifies this
      ensures byBackend == old(byBackend) + [registration]
    {
      byBackend := byBackend + [registration];
    }

    method VerifiersFor(backend: string) returns (names: seq<string>)
      ensures names == HumanLabels(ServedBy(byBackend, backend))
    {
      names := HumanLabels(ServedBy(byBackend, backend));
    }

    method Verify(request: VerificationRequest) returns (r: Result<Report, ServiceError>)
      ensures r == VerifyWith(byBackend, request)
    {
      ghost var served := ServedBy(byBackend, request.backend);
      var results: Report, ranAny := [], false;
      assert byBackend[0..] == byBackend;
      AppendToNothing(RunEach(served, request));
      for i := 0 to |byBackend|
        invariant RunEach(served, request) ==
                  AppendTo(results, RunEach(ServedBy(byBackend[i..], request.backend), request))
        invariant ranAny || served == ServedBy(byBackend[i..], request.backend)
        invariant ranAny ==> served != []
      {
        var registration := byBackend[i];
        ServedStep(byBackend, i, request.backend);
        assert [] + ServedBy(byBackend[i + 1..], request.backend) == ServedBy(byBackend[i + 1..], request.backend);
        if registration.backend != request.backend {
          continue;
        }
        ranAny := true;
        RunStep(registration, ServedBy(byBackend[i + 1..], request.backend), request, results);
        var outcome := registration.verify(request);
        if outcome.Err? {
          return Err(VerifierFailed(registration.humanLabel));
        }
        results := results + [VerifierResult(registration.humanLabel, outcome.value)];
      }
      assert byBackend[|byBackend|..] == [];
      if !ranAny {
        return Err(UnknownBackend(request.backend));
      }
      assert results + [] == results;
      r := Ok(results);
    }

    method VerifyAll(request: VerificationRequest) returns (r: Result<VerificationOutcome, ServiceError>)
      ensures r == VerifyAllWith(byBackend, request)
    {
      var report := Verify(request);
      if report.Err? {
        return Err(report.error);
      }
      r := Ok(Combined(report.value));
    }
  }

  lemma AppendToNothing(r: Result<Report, ServiceError>)
    ensures AppendTo([], r) == r
  {
    if r.Ok? {
      assert [] + r.value == r.value;
    }
  }

  lemma ServedStep(regs: seq<Registration>, i: nat, backend: string)
    requires i < |regs|
    ensures ServedBy(regs[i..], backend) ==
            (if regs[i].backend == backend then [regs[i]] else []) + ServedBy(regs[i + 1..], backend)
  {
    assert regs[i..][0] == regs[i] && regs[i..][1..] == regs[i + 1..];
  }

  lemma RunStep(reg: Registration, rest: seq<Registration>, request: VerificationRequest, done: Report)
    ensures AppendTo(done, RunEach([reg] + rest, request)) ==
            if reg.verify(request).Err? then Err(VerifierFailed(reg.humanLabel))
            else AppendTo(done + [VerifierResult(reg.humanLabel, reg.verify(request).value)], RunEach(rest, request))
  {
    assert ([reg] + rest)[1..] == rest;
    if RunEach(rest, request).Ok? && reg.verify(request).Ok? {
      var one, more := [VerifierResult(reg.humanLabel, reg.verify(request).value)], RunEach(rest, request).value;
      assert done + (one + more) == (done + one) + more;
    }
  }

  // ---------- What the report holds ----------

  /** The verifier reports what `reg` answered. */
  predicate ReportsOf(result: VerifierResult, reg: Registration, request: VerificationRequest) {
    result.humanLabel == reg.humanLabel && reg.verify(request) == Ok(result.outcome)
  }

  lemma {:induction false} RunEachMeaning(served: seq<Registration>, request: VerificationRequest)
    ensures var r := RunEach(served, request);
            && (r.Ok? <==> forall i :: 0 <= i < |served| ==> served[i].verify(request).Ok?)
            && (r.Ok? ==> |r.value| == |served|
                          && forall i :: 0 <= i < |served| ==> ReportsOf(r.value[i], served[i], request))
  {
    if served != [] {
      RunEachMeaning(served[1..], request);
      assert forall i :: 1 <= i < |served| ==> served[i] == served[1..][i - 1];
      assert forall i :: 0 <= i < |served[1..]| ==> served[1..][i] == served[i + 1];
    }
  }

  /** The first verifier that cannot run names the failure. */
  lemma {:induction false} FirstFailureReported(served: seq<Registration>, request: VerificationRequest, k: nat)
    requires k < |served| && served[k].verify(request).Err?
    requires forall i :: 0 <= i < k ==> served[i].verify(request).Ok?
    ensures RunEach(served, request) == Err(VerifierFailed(served[k].humanLabel))
  {
    if k > 0 {
      assert served[1..][k - 1] == served[k];
      assert forall i :: 0 <= i < k - 1 ==> served[1..][i] == served[i + 1];
      FirstFailureReported(served[1..], request, k - 1);
    }
  }

  lemma {:induction false} ServedExactly(regs: seq<Registration>, backend: string, reg: Registration)
    ensures reg in ServedBy(regs, backend) <==> reg in regs && reg.backend == backend
  {
    if regs != [] {
      ServedExactly(regs[1..], backend, reg);
      assert reg in regs <==> reg == regs[0] || reg in regs[1..];
    }
  }

  lemma {:induction false} ServedAppend(a: seq<Registration>, b: seq<Registration>, backend: string)
    ensures ServedBy(a + b, backend) == ServedBy(a, backend) + ServedBy(b, backend)
  {
    if a == [] {
      assert a + b == b;
    } else {
      var head := if a[0].backend == backend then [a[0]] else [];
      assert (a + b)[1..] == a[1..] + b;
      assert ServedBy(a + b, backend) == head + ServedBy(a[1..] + b, backend);
      assert ServedBy(a, backend) == head + ServedBy(a[1..], backend);
      hide ServedBy;
      ServedAppend(a[1..], b, backend);
    }
  }

  /**
   The report exists exactly when some verifier serves the request's backend and all of those
   ran; it then lists exactly their answers, in registration order.
   */
  lemma ReportListsServed(regs: seq<Registration>, request: VerificationRequest)
    ensures var served, r := ServedBy(regs, request.backend), VerifyWith(regs, request);
            && (r.Ok? <==> served != []
                           && forall i :: 0 <= i < |served| ==> served[i].verify(request).Ok?)
            && (r.Ok? ==> |r.value| == |served|
                          && forall i :: 0 <= i < |served| ==> ReportsOf(r.value[i], served[i], request))
            && (r == Err(UnknownBackend(request.backend)) <==>
                forall i :: 0 <= i < |regs| ==> regs[i].backend != request.backend)
  {
    var served := ServedBy(regs, request.backend);
    RunEachMeaning(served, request);
    if served != [] {
      ServedExactly(regs, request.backend, served[0]);
    }
    forall i | 0 <= i < |regs| && regs[i].backend == request.backend ensures served != [] {
      ServedExactly(regs, request.backend, regs[i]);
    }
    NeverUnknown(served, request);
  }

  lemma {:induction false} NeverUnknown(served: seq<Registration>, request: VerificationRequest)
    ensures RunEach(served, request).Err? ==> RunEach(served, request).error.VerifierFailed?
  {
    if served != [] {
      NeverUnknown(served[1..], request);
    }
  }

  /** Verifiers of other backends are never asked: registering one changes no verdict. */
  lemma OtherBackendsIgnored(before: seq<Registration>, other: Registration, after: seq<Registration>,
                             request: VerificationRequest)
    requires other.backend != request.backend
    ensures VerifyWith(before + [other] + after, request) == VerifyWith(before + after, request)
  {
    ServedAppend(before + [other], after, request.backend);
    ServedAppend(before, [other], request.backend);
    ServedAppend(before, after, request.backend);
    assert ServedBy(before, request.backend) + [] == ServedBy(before, request.backend);
  }

  // ---------- Reading the report ----------

  predicate AnyVerified(report: Report) {
    exists i :: 0 <= i < |report| && report[i].outcome.verified
  }

  predicate AllVerified(report: Report) {
    report != [] && forall i :: 0 <= i < |report| ==> report[i].outcome.verified
  }

  predicate Disagrees(report: Report) {
    |report| > 1 && AnyVerified(report) && !AllVerified(report)
  }

  function VerifiedBy(report: Report): seq<string> {
    if report == [] then []
    else (if report[0].outcome.verified then [report[0].humanLabel] else []) + VerifiedBy(report[1..])
  }

  datatype Rejection = Rejection(humanLabel: string, reason: Option<VerificationFailure>)

  function Rejections(report: Report): seq<Rejection> {
    if report == [] then []
    else
      (if report[0].outcome.verified then [] else [Rejection(report[0].humanLabel, report[0].outcome.failure)])
      + Rejections(report[1..])
  }

  function Combined(report: Report): VerificationOutcome {
    var rejections := Rejections(report);
    if AllVerified(report) then VERIFIED
    else if rejections == [] then Rejected(InvalidProof)
    else Rejected(rejections[0].reason.GetOr(InvalidProof))
  }

  function VerifyAllWith(regs: seq<Registration>, request: VerificationRequest)
    : Result<VerificationOutcome, ServiceError>
  {
    var report :- VerifyWith(regs, request);
    Ok(Combined(report))
  }

  function ResultLabels(report: Report): seq<string> {
    seq(|report|, i requires 0 <= i < |report| => report[i].humanLabel)
  }

  function RejectedLabels(rejections: seq<Rejection>): seq<string> {
    seq(|rejections|, i requires 0 <= i < |rejections| => rejections[i].humanLabel)
  }

  /** Every verifier is listed once, either among those that accepted or those that rejected. */
  lemma {:induction false} ReportSplits(report: Report)
    ensures |VerifiedBy(report)| + |Rejections(report)| == |report|
    ensures multiset(VerifiedBy(report)) + multiset(RejectedLabels(Rejections(report)))
         == multiset(ResultLabels(report))
  {
    if report != [] {
      hide VerifiedBy, Rejections, ResultLabels, RejectedLabels;
      var rest := report[1..];
      ReportSplits(rest);
      FirstResult(report);
      OneMore(report[0].humanLabel, VerifiedBy(rest), RejectedLabels(Rejections(rest)), ResultLabels(rest));
    }
  }

  lemma FirstResult(report: Report)
    requires report != []
    ensures var first, rest := report[0], report[1..];
            && ResultLabels(report) == [first.humanLabel] + ResultLabels(rest)
            && (first.outcome.verified ==> VerifiedBy(report) == [first.humanLabel] + VerifiedBy(rest)
                                           && Rejections(report) == Rejections(rest))
            && (!first.outcome.verified ==> VerifiedBy(report) == VerifiedBy(rest)
                                            && |Rejections(report)| == 1 + |Rejections(rest)|
                                            && RejectedLabels(Rejections(report))
                                            == [first.humanLabel] + RejectedLabels(Rejections(rest)))
  {
    var first, rest := report[0], report[1..];
    assert ResultLabels(report) == [first.humanLabel] + ResultLabels(rest);
    hide ResultLabels;
    var accepted, rejected := VerifiedBy(rest), Rejections(rest);
    if first.outcome.verified {
      assert Rejections(report) == [] + rejected == rejected;
    } else {
      var rejection := Rejection(first.humanLabel, first.outcome.failure);
      assert VerifiedBy(report) == [] + accepted == accepted;
      assert Rejections(report) == [rejection] + rejected;
      FirstRejectedLabel(rejection, rejected);
    }
  }

  lemma FirstRejectedLabel(rejection: Rejection, rest: seq<Rejection>)
    ensures RejectedLabels([rejection] + rest) == [rejection.humanLabel] + RejectedLabels(rest)
  {
  }

  lemma OneMore(x: string, a: seq<string>, b: seq<string>, all: seq<string>)
    requires multiset(a) + multiset(b) == multiset(all)
    ensures multiset([x] + a) + multiset(b) == multiset([x] + all)
    ensures multiset(a) + multiset([x] + b) == multiset([x] + all)
  {
    assert multiset([x] + a) == multiset{x} + multiset(a);
    assert multiset([x] + b) == multiset{x} + multiset(b);
    assert multiset([x] + all) == multiset{x} + multiset(all);
  }

  /** Verifiers disagree exactly when some accepted and some rejected. */
  lemma DisagreesIff(report: Report)
    ensures Disagrees(report) <==>
            exists i, j :: 0 <= i < |report| && 0 <= j < |report|
                           && report[i].outcome.verified && !report[j].outcome.verified
    ensures Disagrees(report) <==> VerifiedBy(report) != [] && Rejections(report) != []
  {
    SomeVerified(report);
    SomeRejected(report);
    if AnyVerified(report) && !AllVerified(report) {
      var i :| 0 <= i < |report| && report[i].outcome.verified;
      var j :| 0 <= j < |report| && !report[j].outcome.verified;
      assert i != j;
    }
  }

  lemma {:induction false} SomeVerified(report: Report)
    ensures VerifiedBy(report) != [] <==> AnyVerified(report)
  {
    if report != [] {
      SomeVerified(report[1..]);
      assert report == [report[0]] + report[1..];
    }
  }

  lemma {:induction false} SomeRejected(report: Report)
    ensures Rejections(report) == [] <==> forall i :: 0 <= i < |report| ==> report[i].outcome.verified
  {
    if report != [] {
      SomeRejected(report[1..]);
      assert report == [report[0]] + report[1..];
    }
  }

  /** `k` is the first result that is a rejection. */
  predicate FirstRejection(report: Report, k: nat) {
    k < |report| && !report[k].outcome.verified && forall i :: 0 <= i < k ==> report[i].outcome.verified
  }

  lemma {:induction false} FirstRejectionFound(report: Report) returns (k: nat)
    requires exists i :: 0 <= i < |report| && !report[i].outcome.verified
    ensures FirstRejection(report, k) && Rejections(report) != []
    ensures Rejections(report)[0] == Rejection(report[k].humanLabel, report[k].outcome.failure)
  {
    if !report[0].outcome.verified {
      k := 0;
    } else {
      assert report == [report[0]] + report[1..];
      k := FirstRejectionFound(report[1..]);
      k := k + 1;
    }
  }

  /**
   The combined verdict accepts exactly when every verifier of the backend accepts; otherwise
   it gives the reason of the first that rejects, or `InvalidProof` when that one gave none.
   */
  lemma VerifyAllMeaning(regs: seq<Registration>, request: VerificationRequest)
    requires VerifyWith(regs, request).Ok?
    ensures var report, all := VerifyWith(regs, request).value, VerifyAllWith(regs, request);
            && all.Ok? && report != []
            && (all.value == VERIFIED <==> forall i :: 0 <= i < |report| ==> report[i].outcome.verified)
            && (all.value.verified <==> all.value == VERIFIED)
            && forall k: nat :: FirstRejection(report, k) ==>
                 all.value == Rejected(report[k].outcome.failure.GetOr(InvalidProof))
  {
    var report := VerifyWith(regs, request).value;
    ReportListsServed(regs, request);
    if !AllVerified(report) {
      var k := FirstRejectionFound(report);
      assert forall j: nat :: FirstRejection(report, j) ==> !(j < k) && !(k < j);
    }
  }

  // ---------- The verdict in terms of the registrations ----------

  predicate Serves(reg: Registration, request: VerificationRequest) {
    reg.backend == request.backend
  }

  /**
   There is a verdict exactly when some registered verifier has the request's backend and every
   such verifier runs; with none the backend is unknown, to the report and to the verdict.
   */
  lemma VerdictExistsIff(regs: seq<Registration>, request: VerificationRequest)
    ensures VerifyAllWith(regs, request).Ok? <==>
            && (exists i :: 0 <= i < |regs| && Serves(regs[i], request))
            && (forall i :: 0 <= i < |regs| && Serves(regs[i], request) ==> regs[i].verify(request).Ok?)
    ensures (forall i :: 0 <= i < |regs| ==> !Serves(regs[i], request)) ==>
              VerifyWith(regs, request) == Err(UnknownBackend(request.backend))
              && VerifyAllWith(regs, request) == Err(UnknownBackend(request.backend))
  {
    hide Combined;
    var served := ServedBy(regs, request.backend);
    ReportListsServed(regs, request);
    forall i | 0 <= i < |regs| && Serves(regs[i], request) ensures regs[i] in served {
      ServedExactly(regs, request.backend, regs[i]);
    }
    forall k | 0 <= k < |served| ensures served[k] in regs && Serves(served[k], request) {
      ServedExactly(regs, request.backend, served[k]);
    }
  }

  /** The first verifier of the backend that cannot run is named, by the report and by the verdict. */
  lemma FirstThatCannotRun(regs: seq<Registration>, request: VerificationRequest, k: nat)
    requires k < |regs| && Serves(regs[k], request) && regs[k].verify(request).Err?
    requires forall i :: 0 <= i < k && Serves(regs[i], request) ==> regs[i].verify(request).Ok?
    ensures VerifyWith(regs, request) == Err(VerifierFailed(regs[k].humanLabel))
    ensures VerifyAllWith(regs, request) == Err(VerifierFailed(regs[k].humanLabel))
  {
    hide Combined;
    var before, after := regs[..k], regs[k + 1..];
    assert regs == before + ([regs[k]] + after);
    ServedAppend(before, [regs[k]] + after, request.backend);
    ServedStep([regs[k]] + after, 0, request.backend);
    assert ([regs[k]] + after)[0..] == [regs[k]] + after && ([regs[k]] + after)[1..] == after;
    var front := ServedBy(before, request.backend);
    forall i | 0 <= i < |front| ensures front[i].verify(request).Ok? {
      ServedExactly(before, request.backend, front[i]);
    }
    hide ServedBy;
    FirstFailureReported(ServedBy(regs, request.backend), request, |front|);
  }

  predicate Accepts(reg: Registration, request: VerificationRequest) {
    match reg.verify(request)
    case Ok(outcome) => outcome.verified
    case Err(_) => false
  }

  /** A verdict accepts exactly when every verifier of the backend accepts, and else rejects with a reason. */
  lemma VerdictAcceptsIff(regs: seq<Registration>, request: VerificationRequest)
    requires VerifyAllWith(regs, request).Ok?
    ensures var verdict := VerifyAllWith(regs, request).value;
            && (verdict.verified <==>
                forall i :: 0 <= i < |regs| && Serves(regs[i], request) ==> Accepts(regs[i], request))
            && (verdict.verified <==> verdict.failure.None?)
  {
    hide Combined, RunEach;
    var served, report := ServedBy(regs, request.backend), VerifyWith(regs, request).value;
    ReportListsServed(regs, request);
    VerifyAllMeaning(regs, request);
    VerdictExistsIff(regs, request);
    forall i | 0 <= i < |regs| && Serves(regs[i], request) ensures regs[i] in served {
      ServedExactly(regs, request.backend, regs[i]);
    }
    forall k | 0 <= k < |served| ensures served[k] in regs && Serves(served[k], request) {
      ServedExactly(regs, request.backend, served[k]);
    }
    assert forall k :: 0 <= k < |served| ==> ReportsOf(report[k], served[k], request);
    if exists k :: 0 <= k < |report| && !report[k].outcome.verified {
      var k := FirstRejectionFound(report);
      assert FirstRejection(report, k);
    }
  }

  /** Each result is listed on its side, with its own label and reason, in the report's order. */
  lemma ListsFollowReport(a: Report, b: Report, one: VerifierResult)
    ensures VerifiedBy(a + b) == VerifiedBy(a) + VerifiedBy(b)
    ensures Rejections(a + b) == Rejections(a) + Rejections(b)
    ensures VerifiedBy([one]) == (if one.outcome.verified then [one.humanLabel] else [])
    ensures Rejections([one])
         == (if one.outcome.verified then [] else [Rejection(one.humanLabel, one.outcome.failure)])
  {
    assert [one][1..] == [];
    VerifiedByAppend(a, b);
    RejectionsAppend(a, b);
  }

  lemma {:induction false} VerifiedByAppend(a: Report, b: Report)
    ensures VerifiedBy(a + b) == VerifiedBy(a) + VerifiedBy(b)
  {
    if a == [] {
      assert a + b == b;
    } else {
      assert (a + b)[0] == a[0] && (a + b)[1..] == a[1..] + b;
      var first := if a[0].outcome.verified then [a[0].humanLabel] else [];
      assert VerifiedBy(a) == first + VerifiedBy(a[1..]) && VerifiedBy(a + b) == first + VerifiedBy(a[1..] + b);
      hide VerifiedBy;
      VerifiedByAppend(a[1..], b);
      assert first + (VerifiedBy(a[1..]) + VerifiedBy(b)) == (first + VerifiedBy(a[1..])) + VerifiedBy(b);
    }
  }

  lemma {:induction false} RejectionsAppend(a: Report, b: Report)
    ensures Rejections(a + b) == Rejections(a) + Rejections(b)
  {
    if a == [] {
      assert a + b == b;
    } else {
      assert (a + b)[0] == a[0] && (a + b)[1..] == a[1..] + b;
      var first := if a[0].outcome.verified then [] else [Rejection(a[0].humanLabel, a[0].outcome.failure)];
      assert Rejections(a) == first + Rejections(a[1..]) && Rejections(a + b) == first + Rejections(a[1..] + b);
      hide Rejections;
      RejectionsAppend(a[1..], b);
      assert first + (Rejections(a[1..]) + Rejections(b)) == (first + Rejections(a[1..])) + Rejections(b);
    }
  }
}

/** The answers a certificate order meets: those of the server, of the validation plugins, and the
    interruptions by abort or timeout. Which lists of answers end in a certificate is said twice,
    as the client consumes them and as the form such a list has, and both agree. */
module AcmeAnswers {
  import opened Wrappers
  import opened Text

  datatype AuthStatus = Deactivated | Expired | Invalid | Pending | Revoked | Valid
  datatype OrderStatus = NewOrder | InvalidOrder | PendingOrder | Processing | Ready | ValidOrder

  datatype Answer =
    | Failed
    | Placed(urls: seq<string>)
    | Auth(domain: string, status: AuthStatus)
    | Order(state: OrderStatus, finalize: bool, certificate: bool)
    | Certificate(pem: string)
    | Done
    | Interrupted          // before anything was sent
    | Lost                 // sent, but interrupted before an answer came

  // ---------------------------------------------------------------- the client's way through the answers

  type Answers = seq<Answer>

  /** Polling an authorization succeeds on any number of 'pending' and then 'valid'; the rest of
      the answers is left. */
  function PollValid(ans: Answers): Option<Answers>
  {
    if ans == [] || !ans[0].Auth? then None
    else
      match ans[0].status
      case Pending => PollValid(ans[1..])
      case Valid => Some(ans[1..])
      case _ => None
  }

  function Validated(ans: Answers): Option<Answers>
  {
    if ans == [] || !ans[0].Done? then None else PollValid(ans[1..])
  }

  function Tail(ans: Answers): Answers
  {
    if ans == [] then [] else ans[1..]
  }

  /** An authorization is valid already, or its domain has a plugin, the setup works and the
      validation succeeds; the result of the teardown does not matter. */
  function Authorized(ans: Answers, plugins: map<string, bool>): Option<Answers>
  {
    if ans == [] || !ans[0].Auth? then None
    else if ans[0].status == AuthStatus.Valid then Some(ans[1..])
    else if ans[0].domain !in plugins || !plugins[ans[0].domain] then None
    else if ans[1..] == [] || !ans[1].Done? then None
    else
      match Validated(ans[2..])
      case None => None
      case Some(rest) => Some(Tail(rest))
  }

  function AllAuthorized(ans: Answers, n: nat, plugins: map<string, bool>): Option<Answers>
    decreases n
  {
    if n == 0 then Some(ans)
    else
      match Authorized(ans, plugins)
      case None => None
      case Some(rest) => AllAuthorized(rest, n - 1, plugins)
  }

  /** The certificate obtained by polling the order, after `errors` tolerated failures. */
  function Issued(ans: Answers, errors: nat): Option<string>
    decreases |ans|
  {
    if ans == [] || !ans[0].Order? then None
    else if ans[0].state == Processing then Issued(ans[1..], errors)
    else if |ans| == 1 then None
    else
      match ans[0].state
      case PendingOrder =>
        if !ans[0].finalize || ans[1].Interrupted? || ans[1].Lost? then None
        else if ans[1].Done? then Issued(ans[2..], errors)
        else if errors >= 5 then None
        else Issued(ans[2..], errors + 1)
      case Ready => if ans[0].finalize && ans[1].Done? then Issued(ans[2..], errors) else None
      case ValidOrder => if ans[0].certificate && ans[1].Certificate? then Some(ans[1].pem) else None
      case _ => None
  }

  function Outcome(ans: Answers, plugins: map<string, bool>): Option<string>
  {
    if ans == [] || !ans[0].Placed? then None
    else
      match AllAuthorized(ans[1..], |ans[0].urls|, plugins)
      case None => None
      case Some(rest) => Issued(rest, 0)
  }

  // ---------------------------------------------------------------- the form of a successful list

  predicate Says(a: Answer, status: AuthStatus)
  {
    a.Auth? && a.status == status
  }

  /** Any number of pending authorizations, `n`, and then a valid one. */
  ghost predicate PolledBy(ans: Answers, n: nat)
  {
    n < |ans| && (forall i :: 0 <= i < n ==> Says(ans[i], Pending)) && Says(ans[n], AuthStatus.Valid)
  }

  /** The validation request is accepted, and polling then ends well after `n` pending answers. */
  ghost predicate ValidatedBy(ans: Answers, n: nat)
  {
    ans != [] && ans[0].Done? && PolledBy(ans[1..], n)
  }

  lemma {:induction false} PollMeets(ans: Answers, n: nat)
    requires PolledBy(ans, n)
    ensures PollValid(ans) == Some(ans[n + 1..])
    decreases n
  {
    if n > 0 {
      assert Says(ans[0], Pending);
      PollMeets(ans[1..], n - 1);
      assert ans[1..][n..] == ans[n + 1..];
    }
  }

  lemma {:induction false} PollFinds(ans: Answers) returns (n: nat)
    requires PollValid(ans).Some?
    ensures PolledBy(ans, n)
    decreases |ans|
  {
    if ans[0].status == Pending {
      var m := PollFinds(ans[1..]);
      n := m + 1;
      forall i | 0 <= i < n ensures Says(ans[i], Pending) {
        if i > 0 { assert ans[1..][i - 1] == ans[i]; }
      }
    } else {
      n := 0;
    }
  }

  /** Validation succeeds exactly on such answers and leaves what follows. */
  lemma ValidatedIff(ans: Answers)
    ensures Validated(ans).Some? <==> exists n: nat :: ValidatedBy(ans, n)
    ensures forall n: nat :: ValidatedBy(ans, n) ==> Validated(ans) == Some(ans[n + 2..])
  {
    hide PollValid;
    forall n: nat | ValidatedBy(ans, n) ensures Validated(ans) == Some(ans[n + 2..]) {
      ValidatedMeets(ans, n);
    }
    if Validated(ans).Some? {
      var n := PollFinds(ans[1..]);
      assert ValidatedBy(ans, n);
    }
  }

  lemma ValidatedMeets(ans: Answers, n: nat)
    requires ValidatedBy(ans, n)
    ensures n + 2 <= |ans| && Validated(ans) == Some(ans[n + 2..])
  {
    PollMeets(ans[1..], n);
    assert ans[1..][n + 1..] == ans[n + 2..];
  }

  predicate HasPlugin(plugins: map<string, bool>, domain: string)
  {
    domain in plugins && plugins[domain]
  }

  /** The answers for one authorization: it is valid already, or there is a plugin for its domain,
      the setup works, and validation succeeds, after which comes any answer to the teardown. */
  ghost predicate AuthRun(run: Answers, plugins: map<string, bool>)
  {
    run != [] && run[0].Auth? &&
    if run[0].status == AuthStatus.Valid then |run| == 1
    else |run| >= 5 && HasPlugin(plugins, run[0].domain) && run[1].Done? && ValidatedBy(run[2..], |run| - 5)
  }

  lemma AuthRunMeets(run: Answers, rest: Answers, plugins: map<string, bool>)
    requires AuthRun(run, plugins)
    ensures Authorized(run + rest, plugins) == Some(rest)
  {
    hide ValidatedBy, Validated;
    var ans := run + rest;
    if run[0].status == AuthStatus.Valid {
      assert ans[1..] == rest;
    } else {
      var n := |run| - 5;
      ValidatedAppend(run[2..], rest, n);
      assert ans[2..] == run[2..] + rest;
      ValidatedMeets(ans[2..], n);
      assert ans[2..][n + 2..] == ans[n + 4..];
      assert ans[n + 4..][1..] == rest;
    }
  }

  lemma ValidatedAppend(ans: Answers, rest: Answers, n: nat)
    requires ValidatedBy(ans, n)
    ensures ValidatedBy(ans + rest, n)
  {
    assert (ans + rest)[1..] == ans[1..] + rest;
  }

  lemma AuthRunFinds(ans: Answers, plugins: map<string, bool>) returns (run: Answers)
    requires Authorized(ans, plugins).Some? && Authorized(ans, plugins).value != []
    ensures AuthRun(run, plugins) && ans == run + Authorized(ans, plugins).value
  {
    hide ValidatedBy, Validated;
    var rest := Authorized(ans, plugins).value;
    if ans[0].status == AuthStatus.Valid {
      run := ans[..1];
    } else {
      var n := ValidatedFinds(ans[2..]);
      ValidatedMeets(ans[2..], n);
      assert ans[2..][n + 2..] == ans[n + 4..];
      assert rest == ans[n + 5..] by { assert ans[n + 4..][1..] == ans[n + 5..]; }
      run := ans[..n + 5];
      ValidatedCut(ans, n);
    }
  }

  lemma ValidatedFinds(ans: Answers) returns (n: nat)
    requires Validated(ans).Some?
    ensures ValidatedBy(ans, n)
  {
    n := PollFinds(ans[1..]);
  }

  lemma ValidatedCut(ans: Answers, n: nat)
    requires n + 5 <= |ans| && ValidatedBy(ans[2..], n)
    ensures ValidatedBy(ans[..n + 5][2..], n)
  {
    var s, t := ans[2..], ans[..n + 5][2..];
    assert t == s[..n + 3];
    assert t[1..] == s[1..][..n + 2];
  }

  function Flat(parts: seq<Answers>): Answers
  {
    if parts == [] then [] else parts[0] + Flat(parts[1..])
  }

  ghost predicate AllAuthRuns(runs: seq<Answers>, plugins: map<string, bool>)
  {
    forall k :: 0 <= k < |runs| ==> AuthRun(runs[k], plugins)
  }

  lemma {:induction false} AuthRunsMeet(runs: seq<Answers>, rest: Answers, plugins: map<string, bool>)
    requires AllAuthRuns(runs, plugins)
    ensures AllAuthorized(Flat(runs) + rest, |runs|, plugins) == Some(rest)
    decreases |runs|
  {
    hide AuthRun, Authorized;
    if runs == [] {
      assert Flat(runs) + rest == rest;
    } else {
      AppendAssoc(runs[0], Flat(runs[1..]), rest);
      AuthRunMeets(runs[0], Flat(runs[1..]) + rest, plugins);
      AuthRunsMeet(runs[1..], rest, plugins);
    }
  }

  lemma {:induction false} AuthRunsFind(ans: Answers, n: nat, plugins: map<string, bool>) returns (runs: seq<Answers>)
    requires AllAuthorized(ans, n, plugins).Some? && AllAuthorized(ans, n, plugins).value != []
    ensures |runs| == n && AllAuthRuns(runs, plugins) && ans == Flat(runs) + AllAuthorized(ans, n, plugins).value
    decreases n
  {
    hide AuthRun, Authorized;
    if n == 0 {
      runs := [];
      assert Flat(runs) + ans == ans;
    } else {
      var rest := Authorized(ans, plugins).value;
      NothingLeft(n - 1, plugins);
      var run := AuthRunFinds(ans, plugins);
      var more := AuthRunsFind(rest, n - 1, plugins);
      runs := [run] + more;
      assert runs[1..] == more;
      AppendAssoc(run, Flat(more), AllAuthorized(ans, n, plugins).value);
    }
  }

  lemma NothingLeft(n: nat, plugins: map<string, bool>)
    ensures AllAuthorized([], n, plugins) == if n == 0 then Some([]) else None
  {
  }

  // the polls of the order

  /** One round of polling the order that goes on: it is processing, or it is pending or ready and
      the finalize request is accepted. */
  predicate Progress(poll: Answers)
  {
    poll != [] && poll[0].Order? &&
    ((|poll| == 1 && poll[0].state == Processing) ||
     (|poll| == 2 && (poll[0].state == PendingOrder || poll[0].state == Ready) && poll[0].finalize && poll[1].Done?))
  }

  /** A round in which the finalize request of a pending order is answered, but not accepted. */
  predicate Refusal(poll: Answers)
  {
    |poll| == 2 && poll[0].Order? && poll[0].state == PendingOrder && poll[0].finalize &&
    !poll[1].Done? && !poll[1].Interrupted? && !poll[1].Lost?
  }

  ghost predicate AllPolls(polls: seq<Answers>)
  {
    forall k :: 0 <= k < |polls| ==> Progress(polls[k]) || Refusal(polls[k])
  }

  function Refusals(polls: seq<Answers>): nat
  {
    if polls == [] then 0 else (if Refusal(polls[0]) then 1 else 0) + Refusals(polls[1..])
  }

  /** The order is valid, and its certificate comes. */
  predicate Delivers(ans: Answers, pem: string)
  {
    |ans| >= 2 && ans[0].Order? && ans[0].state == ValidOrder && ans[0].certificate && ans[1] == Certificate(pem)
  }

  /** Rounds that go on, at most five of them refusals, and then the certificate. */
  ghost predicate IssuedBy(ans: Answers, pem: string, polls: seq<Answers>, rest: Answers, tolerated: int)
  {
    ans == Flat(polls) + rest && AllPolls(polls) && Refusals(polls) <= tolerated && Delivers(rest, pem)
  }

  lemma RoundMeets(poll: Answers, rest: Answers, errors: nat)
    requires Progress(poll) || Refusal(poll)
    requires Refusal(poll) ==> errors < 5
    ensures Issued(poll + rest, errors) == Issued(rest, if Refusal(poll) then errors + 1 else errors)
  {
    var ans := poll + rest;
    assert |poll| == 1 ==> ans[1..] == rest;
    assert |poll| == 2 ==> ans[2..] == rest;
  }

  lemma {:induction false} IssuedMeets(polls: seq<Answers>, rest: Answers, errors: nat, pem: string)
    requires AllPolls(polls) && errors + Refusals(polls) <= 5 && Delivers(rest, pem)
    ensures Issued(Flat(polls) + rest, errors) == Some(pem)
    decreases |polls|
  {
    hide Progress, Refusal;
    if polls == [] {
      assert Flat(polls) + rest == rest;
    } else {
      AppendAssoc(polls[0], Flat(polls[1..]), rest);
      RoundMeets(polls[0], Flat(polls[1..]) + rest, errors);
      IssuedMeets(polls[1..], rest, if Refusal(polls[0]) then errors + 1 else errors, pem);
    }
  }

  lemma {:induction false} IssuedFinds(ans: Answers, errors: nat, pem: string)
    returns (polls: seq<Answers>, rest: Answers)
    requires errors <= 5 && Issued(ans, errors) == Some(pem)
    ensures IssuedBy(ans, pem, polls, rest, 5 - errors)
    decreases |ans|
  {
    if ans[0].state == ValidOrder {
      polls, rest := [], ans;
      assert Flat(polls) + rest == ans;
    } else {
      var k := if ans[0].state == Processing then 1 else 2;
      var poll := ans[..k];
      var e := if Refusal(poll) then errors + 1 else errors;
      var more;
      more, rest := IssuedFinds(ans[k..], e, pem);
      polls := [poll] + more;
      IssuedCons(ans, pem, poll, more, rest, 5 - e);
    }
  }

  lemma IssuedCons(ans: Answers, pem: string, poll: Answers, more: seq<Answers>, rest: Answers, tolerated: int)
    requires poll <= ans && (Progress(poll) || Refusal(poll)) && IssuedBy(ans[|poll|..], pem, more, rest, tolerated)
    ensures IssuedBy(ans, pem, [poll] + more, rest, tolerated + if Refusal(poll) then 1 else 0)
  {
    hide Progress, Refusal, Delivers;
    assert ([poll] + more)[1..] == more;
    assert ans == poll + ans[|poll|..];
    AppendAssoc(poll, Flat(more), rest);
  }

  ghost predicate Issuing(ans: Answers, pem: string)
  {
    exists polls, rest :: IssuedBy(ans, pem, polls, rest, 5)
  }

  /** Polling the order returns a certificate exactly on such answers. */
  lemma IssuedIff(ans: Answers, pem: string)
    ensures Issued(ans, 0) == Some(pem) <==> Issuing(ans, pem)
  {
    hide Issued, AllPolls, Refusals, Delivers;
    if Issued(ans, 0) == Some(pem) {
      var polls, rest := IssuedFinds(ans, 0, pem);
      assert IssuedBy(ans, pem, polls, rest, 5);
    }
    if polls, rest :| IssuedBy(ans, pem, polls, rest, 5) { IssuedMeets(polls, rest, 0, pem); }
  }

  /** A whole order: it is placed, every authorization is or becomes valid, and the order is issued. */
  ghost predicate Cooperative(ans: Answers, plugins: map<string, bool>, pem: string)
  {
    ans != [] && ans[0].Placed? &&
    exists runs, rest :: OrderRun(ans[1..], |ans[0].urls|, plugins, pem, runs, rest)
  }

  ghost predicate OrderRun(ans: Answers, n: nat, plugins: map<string, bool>, pem: string,
                           runs: seq<Answers>, rest: Answers)
  {
    |runs| == n && AllAuthRuns(runs, plugins) && ans == Flat(runs) + rest && Issuing(rest, pem)
  }

  /** An order returns a certificate exactly when the answers have this form. */
  lemma OutcomeIff(ans: Answers, plugins: map<string, bool>, pem: string)
    ensures Outcome(ans, plugins) == Some(pem) <==> Cooperative(ans, plugins, pem)
  {
    hide AllAuthRuns, Issuing, Flat, AllAuthorized;
    if Outcome(ans, plugins) == Some(pem) {
      var n := |ans[0].urls|;
      var rest := AllAuthorized(ans[1..], n, plugins).value;
      IssuedIff(rest, pem);
      var runs := AuthRunsFind(ans[1..], n, plugins);
      assert OrderRun(ans[1..], n, plugins, pem, runs, rest);
    }
    if Cooperative(ans, plugins, pem) {
      var runs, rest :| OrderRun(ans[1..], |ans[0].urls|, plugins, pem, runs, rest);
      AuthRunsMeet(runs, rest, plugins);
      IssuedIff(rest, pem);
    }
  }
}

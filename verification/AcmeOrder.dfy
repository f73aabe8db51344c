/** Ordering a certificate from an ACME server (sections 7.1.6 and 7.4 of RFC 8555).

    The server, the validation plugins and the interruptions by abort or timeout are an
    arbitrary list of answers that the run consumes; when the list is used up, the run is
    interrupted. The log records what the client sent and saw. */
module AcmeOrder {
  import opened Wrappers
  import opened AcmeAnswers

  datatype Event =
    | OrderPlaced(urls: seq<string>)
    | AuthAsked(url: string)
    | AuthSeen(url: string, status: AuthStatus)
    | SetUp(url: string)
    | TornDown(url: string)
    | ValidationAsked(url: string)
    | OrderAsked
    | OrderSeen(state: OrderStatus)
    | FinalizePosted
    | FinalizeFailed
    | CertificateAsked
    | CertificateFetched(pem: string)

  datatype Error = NoAnswer | NoDomainConfig | NoPlugin | BadStatus | MissingUrl

  type Log = seq<Event>

  // ---------------------------------------------------------------- what a log has to satisfy

  /** Every finalize request comes after every authorization of the order was seen valid, and
      right after the order was seen pending or ready. */
  ghost predicate FinalizeAfterValidation(log: Log)
  {
    forall i :: 0 <= i < |log| && log[i].FinalizePosted? ==>
      i > 0 && log[i - 1] in {OrderSeen(PendingOrder), OrderSeen(Ready)} &&
      log[0].OrderPlaced? && forall u :: u in log[0].urls ==> AuthSeen(u, Valid) in log[..i]
  }

  /** A certificate is requested only right after the order was seen valid, and fetched only
      right after it was requested. */
  ghost predicate CertificateAfterValid(log: Log)
  {
    (forall i :: 0 <= i < |log| && log[i].CertificateAsked? ==> i > 0 && log[i - 1] == OrderSeen(ValidOrder)) &&
    (forall i :: 0 <= i < |log| && log[i].CertificateFetched? ==> i > 0 && log[i - 1].CertificateAsked?)
  }

  /** The validation plugin: nothing set up, set up for an authorization, or used wrongly. */
  datatype Plugin = Clear | Holding(url: string) | Misused

  /** Validation is requested only while the plugin is set up for that authorization, and then only
      that authorization is worked on; the plugin is set up once and torn down once. */
  function Plugged(p: Plugin, e: Event): Plugin
  {
    match p
    case Misused => Misused
    case Clear =>
      if e.SetUp? then Holding(e.url) else if e.TornDown? || e.ValidationAsked? then Misused else Clear
    case Holding(u) =>
      if e == TornDown(u) then Clear
      else if e == ValidationAsked(u) || e == AuthAsked(u) || (e.AuthSeen? && e.url == u) then Holding(u)
      else Misused
  }

  function PluginState(log: Log): Plugin
  {
    if log == [] then Clear else Plugged(PluginState(log[..|log| - 1]), log[|log| - 1])
  }

  function Failures(log: Log): nat
  {
    if log == [] then 0
    else Failures(log[..|log| - 1]) + if log[|log| - 1].FinalizeFailed? then 1 else 0
  }

  ghost predicate Disciplined(log: Log)
  {
    FinalizeAfterValidation(log) && CertificateAfterValid(log)
  }

  ghost predicate AllSeenValid(log: Log, urls: seq<string>)
  {
    forall u :: u in urls ==> AuthSeen(u, Valid) in log
  }

  // ---------------------------------------------------------------- appending to a log

  lemma Snoc(log: Log, e: Event)
    ensures PluginState(log + [e]) == Plugged(PluginState(log), e)
    ensures Failures(log + [e]) == Failures(log) + if e.FinalizeFailed? then 1 else 0
  {
    assert (log + [e])[..|log|] == log;
  }

  lemma EmptyLog()
    ensures PluginState([]) == Clear && Failures([]) == 0 && Disciplined([])
  {
  }

  /** The conditions under which an event may be appended. */
  ghost predicate Allowed(log: Log, e: Event)
  {
    (e.FinalizePosted? ==>
      log != [] && log[|log| - 1] in {OrderSeen(PendingOrder), OrderSeen(Ready)} &&
      log[0].OrderPlaced? && AllSeenValid(log, log[0].urls)) &&
    (e.CertificateAsked? ==> log != [] && log[|log| - 1] == OrderSeen(ValidOrder)) &&
    (e.CertificateFetched? ==> log != [] && log[|log| - 1].CertificateAsked?)
  }

  lemma AppendKeepsDiscipline(log: Log, e: Event)
    requires Disciplined(log) && Allowed(log, e)
    ensures Disciplined(log + [e])
  {
    var l := log + [e];
    forall i | 0 <= i < |l| && l[i].FinalizePosted?
      ensures i > 0 && l[i - 1] in {OrderSeen(PendingOrder), OrderSeen(Ready)}
      ensures l[0].OrderPlaced? && forall u :: u in l[0].urls ==> AuthSeen(u, Valid) in l[..i]
    {
      if i < |log| {
        assert log[i] == l[i] && l[..i] == log[..i];
      } else {
        assert l[..i] == log;
      }
    }
    forall i | 0 <= i < |l| && l[i].CertificateAsked? ensures i > 0 && l[i - 1] == OrderSeen(ValidOrder) {
      if i < |log| { assert log[i] == l[i]; }
    }
    forall i | 0 <= i < |l| && l[i].CertificateFetched? ensures i > 0 && l[i - 1].CertificateAsked? {
      if i < |log| { assert log[i] == l[i]; }
    }
  }

  // ---------------------------------------------------------------- the run

  class Session {
    var log: Log
    var answers: seq<Answer>

    constructor (answers: seq<Answer>)
      ensures log == [] && this.answers == answers
    {
      log, this.answers := [], answers;
    }

    ghost predicate Valid()
      reads this
    {
      Disciplined(log)
    }

    method Record(e: Event)
      requires Valid() && Allowed(log, e)
      modifies this`log
      ensures Valid() && log == old(log) + [e]
      ensures PluginState(log) == Plugged(PluginState(old(log)), e)
      ensures Failures(log) == Failures(old(log)) + if e.FinalizeFailed? then 1 else 0
    {
      hide Disciplined, Allowed, Plugged, PluginState, Failures;
      AppendKeepsDiscipline(log, e);
      Snoc(log, e);
      log := log + [e];
    }

    method Answer() returns (a: Answer)
      modifies this`answers
      ensures old(answers) == [] ==> a == Interrupted && answers == []
      ensures old(answers) != [] ==> a == old(answers)[0] && answers == old(answers)[1..]
    {
      if answers == [] { return Interrupted; }
      a := answers[0];
      answers := answers[1..];
    }

    /** `get_authorization` */
    method GetAuthorization(url: string) returns (r: Result<(string, AuthStatus), Error>)
      requires Valid() && (PluginState(log) == Clear || PluginState(log) == Holding(url))
      modifies this
      ensures Valid() && PluginState(log) == PluginState(old(log)) && old(log) <= log &&
              Failures(log) == Failures(old(log))
      ensures log == old(log) + if old(answers) == [] || old(answers)[0].Interrupted? then []
                                else if !old(answers)[0].Auth? then [AuthAsked(url)]
                                else [AuthAsked(url), AuthSeen(url, old(answers)[0].status)]
      ensures r.Ok? <==> old(answers) != [] && old(answers)[0].Auth?
      ensures r.Ok? ==> r.value == (old(answers)[0].domain, old(answers)[0].status) && answers == old(answers)[1..]
    {
      hide FinalizeAfterValidation, CertificateAfterValid, PluginState, Failures;
      var a := Answer();
      if a.Interrupted? { return Err(NoAnswer); }
      Record(AuthAsked(url));
      if !a.Auth? { return Err(NoAnswer); }
      Record(AuthSeen(url, a.status));
      return Ok((a.domain, a.status));
    }

    /** `request_validation`: ask for validation, then poll until the authorization is valid. */
    method RequestValidation(url: string) returns (r: Result<(), Error>)
      requires Valid() && PluginState(log) == Holding(url)
      modifies this
      ensures Valid() && PluginState(log) == Holding(url) && old(log) <= log && Failures(log) == Failures(old(log))
      ensures r.Ok? ==> AuthSeen(url, AuthStatus.Valid) in log
      ensures r.Ok? <==> exists n: nat :: ValidatedBy(old(answers), n)
      ensures forall n: nat :: ValidatedBy(old(answers), n) ==> answers == old(answers)[n + 2..]
      ensures if old(answers) == [] || old(answers)[0].Interrupted? then log == old(log)
              else old(log) + [ValidationAsked(url)] <= log
    {
      hide FinalizeAfterValidation, CertificateAfterValid, PluginState, Failures;
      ValidatedIff(answers);
      var a := Answer();
      if a.Interrupted? { return Err(NoAnswer); }
      Record(ValidationAsked(url));
      ghost var asked := log;
      if !a.Done? { return Err(NoAnswer); }
      while true
        invariant Valid() && PluginState(log) == Holding(url) && asked <= log && Failures(log) == Failures(old(log))
        invariant Validated(old(answers)) == PollValid(answers)
        decreases |answers|
      {
        var auth := GetAuthorization(url);
        if auth.Err? { return Err(auth.error); }
        match auth.value.1
        case Pending =>
        case Valid => return Ok(());
        case _ => return Err(BadStatus);
      }
    }

    /** One authorization of the order: skipped when it is valid already, else validated with a
        plugin that is torn down whatever the outcome. */
    method Authorize(url: string, plugins: map<string, bool>) returns (r: Result<(), Error>)
      requires Valid() && PluginState(log) == Clear
      modifies this
      ensures Valid() && PluginState(log) == Clear && old(log) <= log && Failures(log) == Failures(old(log))
      ensures r.Ok? ==> AuthSeen(url, AuthStatus.Valid) in log
      ensures r.Ok? <==> Authorized(old(answers), plugins).Some?
      ensures r.Ok? ==> answers == Authorized(old(answers), plugins).value
    {
      hide Validated, ValidatedBy, FinalizeAfterValidation, CertificateAfterValid, PluginState, Failures;
      var auth := GetAuthorization(url);
      if auth.Err? { return Err(auth.error); }
      var (domain, status) := auth.value;
      if status == AuthStatus.Valid { return Ok(()); }
      if domain !in plugins { return Err(NoDomainConfig); }
      if !plugins[domain] { return Err(NoPlugin); }
      var a := Answer();
      if !a.Done? { return Err(NoAnswer); }
      Record(SetUp(url));
      ValidatedIff(answers);
      var result := RequestValidation(url);
      ghost var before := log;
      var _ := Answer();
      Record(TornDown(url));
      if result.Ok? { assert AuthSeen(url, AuthStatus.Valid) in before; }
      return result;
    }

    ghost predicate Ordered(urls: seq<string>)
      reads this
    {
      log != [] && log[0] == OrderPlaced(urls) && AllSeenValid(log, urls)
    }

    /** One `finalize` request. */
    method PostFinalize(urls: seq<string>) returns (ok: bool, stop: bool)
      requires Valid() && Ordered(urls) && PluginState(log) == Clear
      requires log[|log| - 1] in {OrderSeen(PendingOrder), OrderSeen(Ready)}
      modifies this
      ensures Valid() && Ordered(urls) && PluginState(log) == Clear && answers == Tail(old(answers))
      ensures ok <==> old(answers) != [] && old(answers)[0].Done?
      ensures stop <==> old(answers) == [] || old(answers)[0].Interrupted? || old(answers)[0].Lost?
      ensures Failures(log) == Failures(old(log)) + if !ok && !stop then 1 else 0
      ensures log == old(log) + if old(answers) == [] || old(answers)[0].Interrupted? then []
                                else if ok || stop then [FinalizePosted] else [FinalizePosted, FinalizeFailed]
    {
      hide FinalizeAfterValidation, CertificateAfterValid, PluginState, Failures;
      var a := Answer();
      if a.Interrupted? { return false, true; }
      Record(FinalizePosted);
      if a.Lost? { return false, true; }
      if a.Done? { return true, false; }
      Record(FinalizeFailed);
      return false, false;
    }

    /** `get_order` */
    method GetOrder(urls: seq<string>) returns (r: Option<Answer>)
      requires Valid() && Ordered(urls) && PluginState(log) == Clear
      modifies this
      ensures Valid() && Ordered(urls) && PluginState(log) == Clear && Failures(log) == Failures(old(log))
      ensures r == if old(answers) != [] && old(answers)[0].Order? then Some(old(answers)[0]) else None
      ensures answers == Tail(old(answers))
      ensures r.Some? ==> log[|log| - 1] == OrderSeen(r.value.state)
    {
      hide FinalizeAfterValidation, CertificateAfterValid, PluginState, Failures;
      var a := Answer();
      if a.Interrupted? { return None; }
      Record(OrderAsked);
      if !a.Order? { return None; }
      Record(OrderSeen(a.state));
      return Some(a);
    }

    /** `get_certificate` */
    method GetCertificate(urls: seq<string>) returns (r: Option<string>)
      requires Valid() && Ordered(urls) && PluginState(log) == Clear && log[|log| - 1] == OrderSeen(ValidOrder)
      modifies this
      ensures Valid() && Ordered(urls) && PluginState(log) == Clear && Failures(log) == Failures(old(log))
      ensures r == if old(answers) != [] && old(answers)[0].Certificate? then Some(old(answers)[0].pem) else None
      ensures r.Some? ==> log == old(log) + [CertificateAsked, CertificateFetched(r.value)]
    {
      hide FinalizeAfterValidation, CertificateAfterValid, PluginState, Failures;
      var c := Answer();
      if c.Interrupted? { return None; }
      Record(CertificateAsked);
      if !c.Certificate? { return None; }
      Record(CertificateFetched(c.pem));
      return Some(c.pem);
    }

    /** `finalize_order`: poll the order, finalizing it when it is pending or ready; up to five
        failures to finalize a pending order are tolerated. */
    method FinalizeOrder(urls: seq<string>) returns (r: Result<string, Error>)
      requires Valid() && Ordered(urls) && PluginState(log) == Clear && Failures(log) == 0
      modifies this
      ensures Valid() && Ordered(urls) && PluginState(log) == Clear && Failures(log) <= 6
      ensures (match r case Ok(pem) => Some(pem) case Err(_) => None) == Issued(old(answers), 0)
      ensures forall pem :: r == Ok(pem) <==> Issuing(old(answers), pem)
      ensures r.Ok? ==>
                |log| >= 3 &&
                log[|log| - 3..] == [OrderSeen(ValidOrder), CertificateAsked, CertificateFetched(r.value)]
    {
      hide Disciplined, PluginState, Failures, AllSeenValid;
      forall pem ensures Issued(answers, 0) == Some(pem) <==> Issuing(answers, pem) { IssuedIff(answers, pem); }
      hide Issuing;
      var errors := 0;
      while true
        invariant Valid() && Ordered(urls) && PluginState(log) == Clear && Failures(log) == errors <= 5
        invariant Issued(answers, errors) == Issued(old(answers), 0)
        decreases |answers|
      {
        var a := GetOrder(urls);
        if a.None? { return Err(NoAnswer); }
        var order := a.value;
        match order.state
        case PendingOrder =>
          if !order.finalize { return Err(MissingUrl); }
          var ok, stop := PostFinalize(urls);
          if stop { return Err(NoAnswer); }
          if !ok {
            if errors >= 5 { return Err(NoAnswer); }
            errors := errors + 1;
          }
        case Ready =>
          if !order.finalize { return Err(MissingUrl); }
          var ok, _ := PostFinalize(urls);
          if !ok { return Err(NoAnswer); }
        case Processing =>
        case ValidOrder =>
          if !order.certificate { return Err(MissingUrl); }
          var c := GetCertificate(urls);
          if c.None? { return Err(NoAnswer); }
          return Ok(c.value);
        case _ => return Err(BadStatus);
      }
    }

    /** `order_certificate`. In every run, whatever the server answers: finalize requests come
        only after all authorizations were seen valid, a certificate is returned only after the
        order was seen valid, and every plugin set up was torn down exactly once. */
    method OrderCertificate(domains: seq<string>, plugins: map<string, bool>) returns (r: Result<Option<string>, Error>)
      requires log == []
      modifies this
      ensures FinalizeAfterValidation(log) && CertificateAfterValid(log) && PluginState(log) == Clear &&
              Failures(log) <= 6
      ensures domains == [] ==> r == Ok(None) && log == []
      ensures r.Ok? && r.value.Some? ==>
                |log| >= 3 &&
                log[|log| - 3..] == [OrderSeen(ValidOrder), CertificateAsked, CertificateFetched(r.value.value)] &&
                log[0].OrderPlaced? && AllSeenValid(log, log[0].urls)
      ensures domains != [] ==>
                (match r case Ok(cert) => cert case Err(_) => None) == Outcome(old(answers), plugins) &&
                !(r.Ok? && r.value.None?)
      ensures domains != [] ==> forall pem :: r == Ok(Some(pem)) <==> Cooperative(old(answers), plugins, pem)
    {
      hide FinalizeAfterValidation, CertificateAfterValid, PluginState, Failures;
      forall pem ensures Outcome(answers, plugins) == Some(pem) <==> Cooperative(answers, plugins, pem) {
        OutcomeIff(answers, plugins, pem);
      }
      hide Cooperative, Issuing, Authorized, Issued;
      EmptyLog();
      if domains == [] { return Ok(None); }
      var a := Answer();
      if !a.Placed? { return Err(NoAnswer); }
      Record(OrderPlaced(a.urls));
      for i := 0 to |a.urls|
        invariant Valid() && PluginState(log) == Clear && Failures(log) == 0
        invariant log != [] && log[0] == OrderPlaced(a.urls) && AllSeenValid(log, a.urls[..i])
        invariant AllAuthorized(answers, |a.urls| - i, plugins) == AllAuthorized(old(answers)[1..], |a.urls|, plugins)
      {
        var auth := Authorize(a.urls[i], plugins);
        if auth.Err? { return Err(auth.error); }
        assert a.urls[..i + 1] == a.urls[..i] + [a.urls[i]];
      }
      assert a.urls[..|a.urls|] == a.urls;
      var cert := FinalizeOrder(a.urls);
      if cert.Err? { return Err(cert.error); }
      return Ok(Some(cert.value));
    }
  }
}

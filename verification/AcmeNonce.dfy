/** Nonce and retry handling of the two ACME clients (section 6.5 of RFC 8555) against an
    arbitrary server: `server(i)` is the reply to the i-th request of the client's life.

    The asynchronous client takes a nonce from every reply. The blocking client ignores the
    one of the directory request, and takes the one of the new-nonce request only when that
    succeeds. */
module AcmeNonce {
  import opened Wrappers

  datatype Header = NoNonce | Unreadable | Nonce(n: string)

  /** Fine: an expected success status; Unexpected: another success status; then the error
      replies: no ACME error document, badNonce, any other problem. */
  datatype Verdict = Fine | Unexpected | Garbage | BadNonce | Problem

  /** `location`: the Location header is absent or readable; `parses`: the body is what the
      caller expects. */
  datatype Reply = Broken | Reply(header: Header, location: bool, verdict: Verdict, parses: bool)

  datatype Request = GetDirectory | HeadNonce | Post(nonce: string)

  datatype Error = Transport | Client | InvalidApi | BadNonceError | Api | NoAccount | Unsigned | TooManyRetries

  type Server = nat -> Reply
  type Log = seq<Request>

  predicate IsSuccess(v: Verdict)
  {
    v.Fine? || v.Unexpected?
  }

  /** The reply replaces the client's nonce. */
  predicate Delivers(blocking: bool, req: Request, reply: Reply)
  {
    reply.Reply? && reply.header.Nonce? &&
    (blocking ==> reply.location && !req.GetDirectory? && (req.HeadNonce? ==> IsSuccess(reply.verdict)))
  }

  /** The order in which a client checks a reply. The blocking client reads both headers first,
      and judges its unsigned requests by the success status alone. */
  function Judge(blocking: bool, req: Request, reply: Reply): (r: Result<(), Error>)
    ensures r.Ok? <==>
            reply.Reply? && !reply.header.Unreadable? && reply.location &&
            (reply.verdict.Fine? || (blocking && !req.Post? && reply.verdict.Unexpected?))
    ensures r == Err(BadNonceError) <==>
            reply.Reply? && reply.header.Nonce? && reply.verdict.BadNonce? && (blocking ==> req.Post? && reply.location)
    ensures r != Err(TooManyRetries)
  {
    if reply.Broken? then Err(Transport)
    else if reply.header.Unreadable? || (blocking && !reply.location) then Err(Client)
    else if blocking && !req.Post? then (if IsSuccess(reply.verdict) then Ok(()) else Err(Client))
    else match reply.verdict
      case Fine => if reply.location then Ok(()) else Err(Client)
      case Unexpected => Err(InvalidApi)
      case Garbage => Err(Client)
      case BadNonce => Err(if reply.header.Nonce? then BadNonceError else InvalidApi)
      case Problem => Err(Api)
  }

  /** A directory reply the client keeps. */
  predicate DirectoryFine(blocking: bool, reply: Reply)
  {
    Judge(blocking, GetDirectory, reply).Ok? && reply.parses
  }

  /** A new-nonce reply that serves its purpose. */
  predicate NonceFine(blocking: bool, reply: Reply)
  {
    Judge(blocking, HeadNonce, reply).Ok? && reply.header.Nonce?
  }

  function AskNonce(blocking: bool, server: Server, at: nat, nonce: Option<string>): (Log, Option<string>)
  {
    if nonce.Some? then ([], nonce)
    else ([HeadNonce], if NonceFine(blocking, server(at)) then Some(server(at).header.n) else None)
  }

  /** The requests that come before a signed one, and the nonce it will use. */
  function Prelude(blocking: bool, server: Server, at: nat, haveDirectory: bool,
                   nonce: Option<string>): (Log, Option<string>)
  {
    if haveDirectory then AskNonce(blocking, server, at, nonce)
    else if !DirectoryFine(blocking, server(at)) then ([GetDirectory], None)
    else
      var held := if Delivers(blocking, GetDirectory, server(at)) then Some(server(at).header.n) else nonce;
      var (requests, n) := AskNonce(blocking, server, at + 1, held);
      ([GetDirectory] + requests, n)
  }

  /** The signed requests of one operation, with `left` attempts still allowed, and the accepted
      reply. `signs` says whether the request can be built and signed with a nonce. */
  function Posts(blocking: bool, server: Server, at: nat, nonce: string, signs: string -> bool,
                 left: nat): (Log, Option<Reply>)
    decreases left
  {
    if left == 0 || !signs(nonce) then ([], None)
    else
      match Judge(blocking, Post(nonce), server(at))
      case Ok(_) => ([Post(nonce)], Some(server(at)))
      case Err(BadNonceError) =>
        var (more, reply) := Posts(blocking, server, at + 1, server(at).header.n, signs, left - 1);
        ([Post(nonce)] + more, reply)
      case Err(_) => ([Post(nonce)], None)
  }

  /** A signed operation: what is requested, and the accepted reply. */
  function Signed(blocking: bool, server: Server, at: nat, haveDirectory: bool, nonce: Option<string>,
                  signs: string -> bool, left: nat): (Log, Option<Reply>)
  {
    var (requests, n) := Prelude(blocking, server, at, haveDirectory, nonce);
    if n.None? then (requests, None)
    else
      var (posts, reply) := Posts(blocking, server, at + |requests|, n.value, signs, left);
      (requests + posts, reply)
  }

  /** The nonce a client holds after the first `k` requests: the one delivered last. */
  function Held(blocking: bool, server: Server, log: Log, k: nat): Option<string>
    requires k <= |log|
  {
    if k == 0 then None
    else if Delivers(blocking, log[k - 1], server(k - 1)) then Some(server(k - 1).header.n)
    else Held(blocking, server, log, k - 1)
  }

  /** Every signed request used the nonce held when it was sent. */
  ghost predicate UsesHeld(blocking: bool, server: Server, log: Log)
  {
    forall i :: 0 <= i < |log| && log[i].Post? ==> Held(blocking, server, log, i) == Some(log[i].nonce)
  }

  /** The server never issues a nonce twice. */
  ghost predicate IssuesFresh(blocking: bool, server: Server, log: Log)
  {
    forall c, d ::
      0 <= c < d < |log| && Delivers(blocking, log[c], server(c)) && Delivers(blocking, log[d], server(d)) ==>
      server(c).header != server(d).header
  }

  // ---------------------------------------------------------------- reuse of a nonce

  lemma {:induction false} HeldPrefix(blocking: bool, server: Server, log: Log, more: Log, k: nat)
    requires k <= |log|
    ensures Held(blocking, server, log + more, k) == Held(blocking, server, log, k)
    decreases k
  {
    if k > 0 {
      HeldPrefix(blocking, server, log, more, k - 1);
      assert (log + more)[k - 1] == log[k - 1];
    }
  }

  /** The request whose reply delivered the nonce held after `k` requests. */
  lemma {:induction false} LastDelivery(blocking: bool, server: Server, log: Log, k: nat) returns (d: nat)
    requires k <= |log| && Held(blocking, server, log, k).Some?
    ensures d < k && Delivers(blocking, log[d], server(d)) && Held(blocking, server, log, k) == Some(server(d).header.n)
    ensures forall e :: d < e < k ==> !Delivers(blocking, log[e], server(e))
    decreases k
  {
    if Delivers(blocking, log[k - 1], server(k - 1)) {
      d := k - 1;
    } else {
      d := LastDelivery(blocking, server, log, k - 1);
    }
  }

  lemma {:induction false} HeldUnchanged(blocking: bool, server: Server, log: Log, i: nat, j: nat)
    requires i <= j <= |log| && forall d :: i <= d < j ==> !Delivers(blocking, log[d], server(d))
    ensures Held(blocking, server, log, j) == Held(blocking, server, log, i)
    decreases j
  {
    if i < j { HeldUnchanged(blocking, server, log, i, j - 1); }
  }

  /** Two signed requests use the same nonce exactly when no reply in between, that to the
      first one included, delivered a nonce. */
  lemma ReuseIff(blocking: bool, server: Server, log: Log, i: nat, j: nat)
    requires UsesHeld(blocking, server, log) && IssuesFresh(blocking, server, log)
    requires i < j < |log| && log[i].Post? && log[j].Post?
    ensures log[i].nonce == log[j].nonce <==> forall d :: i <= d < j ==> !Delivers(blocking, log[d], server(d))
  {
    if log[i].nonce == log[j].nonce {
      var c := LastDelivery(blocking, server, log, i);
      var d := LastDelivery(blocking, server, log, j);
    }
    if forall d :: i <= d < j ==> !Delivers(blocking, log[d], server(d)) {
      HeldUnchanged(blocking, server, log, i, j);
    }
  }

  /** If every signed request is answered with a fresh nonce, no nonce is ever used twice. */
  lemma NoNonceTwice(blocking: bool, server: Server, log: Log)
    requires UsesHeld(blocking, server, log) && IssuesFresh(blocking, server, log)
    requires forall i :: 0 <= i < |log| && log[i].Post? ==> Delivers(blocking, log[i], server(i))
    ensures forall i, j :: 0 <= i < j < |log| && log[i].Post? && log[j].Post? ==> log[i].nonce != log[j].nonce
  {
    forall i, j | 0 <= i < j < |log| && log[i].Post? && log[j].Post? ensures log[i].nonce != log[j].nonce {
      ReuseIff(blocking, server, log, i, j);
    }
  }

  // ---------------------------------------------------------------- the client

  /** Signed requests from request `at` on: each but the last was refused with badNonce, and the
      next one uses the nonce of that refusal; the operation succeeds exactly when the last one
      was accepted. */
  ghost predicate Retries(blocking: bool, server: Server, at: nat, posts: Log, reply: Option<Reply>)
  {
    (forall i :: 0 <= i < |posts| ==> posts[i].Post?) &&
    (forall i :: 0 < i < |posts| ==> Refused(server(at + i - 1), posts[i])) &&
    (reply.Some? <==> posts != [] && Judge(blocking, posts[|posts| - 1], server(at + |posts| - 1)).Ok?)
  }

  lemma RetriesCons(blocking: bool, server: Server, at: nat, nonce: string, posts: Log, reply: Option<Reply>)
    requires Retries(blocking, server, at + 1, posts, reply)
    requires Judge(blocking, Post(nonce), server(at)) == Err(BadNonceError)
    requires posts != [] ==> posts[0] == Post(server(at).header.n)
    ensures Retries(blocking, server, at, [Post(nonce)] + posts, reply)
  {
    var all := [Post(nonce)] + posts;
    forall i | 0 < i < |all| ensures Refused(server(at + i - 1), all[i]) {
      assert all[i] == posts[i - 1];
    }
  }

  /** At most `left` signed requests, in order. */
  lemma {:induction false} PostsRetry(blocking: bool, server: Server, at: nat, nonce: string,
                                      signs: string -> bool, left: nat)
    ensures var p := Posts(blocking, server, at, nonce, signs, left);
            |p.0| <= left && Retries(blocking, server, at, p.0, p.1) && (p.0 != [] ==> p.0[0] == Post(nonce))
    decreases left
  {
    if left > 0 && signs(nonce) && Judge(blocking, Post(nonce), server(at)) == Err(BadNonceError) {
      hide Judge;
      var n := server(at).header.n;
      PostsRetry(blocking, server, at + 1, n, signs, left - 1);
      var p := Posts(blocking, server, at + 1, n, signs, left - 1);
      RetriesCons(blocking, server, at, nonce, p.0, p.1);
    }
  }

  /** A badNonce reply that delivered the nonce of the request after it. */
  predicate Refused(reply: Reply, next: Request)
  {
    reply.Reply? && reply.verdict.BadNonce? && next.Post? && reply.header == Nonce(next.nonce)
  }

  /** A signed operation sends at most five requests: at most two unsigned ones, then at most
      three signed ones that retry each other. */
  lemma SignedShape(blocking: bool, server: Server, at: nat, haveDirectory: bool, nonce: Option<string>,
                    signs: string -> bool)
    returns (first: nat)
    ensures var p := Signed(blocking, server, at, haveDirectory, nonce, signs, 3);
            first <= 2 && first <= |p.0| <= first + 3 &&
            (forall i :: 0 <= i < first ==> !p.0[i].Post?) && Retries(blocking, server, at + first, p.0[first..], p.1)
  {
    PreludeShape(blocking, server, at, haveDirectory, nonce);
    var prelude := Prelude(blocking, server, at, haveDirectory, nonce);
    hide Judge, Prelude, Posts, Refused;
    first := |prelude.0|;
    if prelude.1.Some? {
      PostsRetry(blocking, server, at + first, prelude.1.value, signs, 3);
      var p := Posts(blocking, server, at + first, prelude.1.value, signs, 3);
      assert (prelude.0 + p.0)[first..] == p.0;
    } else {
      assert prelude.0[first..] == [];
    }
  }

  lemma PreludeShape(blocking: bool, server: Server, at: nat, haveDirectory: bool, nonce: Option<string>)
    ensures var requests := Prelude(blocking, server, at, haveDirectory, nonce).0;
            |requests| <= 2 && forall i :: 0 <= i < |requests| ==> !requests[i].Post?
  {
  }

  /** With a directory and a nonce nothing comes before the signed requests. */
  lemma SignedKnown(blocking: bool, server: Server, at: nat, nonce: string, signs: string -> bool, left: nat)
    ensures Signed(blocking, server, at, true, Some(nonce), signs, left) ==
            Posts(blocking, server, at, nonce, signs, left)
  {
    hide Posts;
    var p := Posts(blocking, server, at, nonce, signs, left);
    assert [] + p.0 == p.0;
  }

  /** The signed request that follows the first ones, when it is not refused with badNonce. */
  lemma SignedEnds(blocking: bool, server: Server, at: nat, haveDirectory: bool, nonce: Option<string>,
                   signs: string -> bool, left: nat,
                   requests: Log, n: string)
    requires Prelude(blocking, server, at, haveDirectory, nonce) == (requests, Some(n)) && signs(n) && left > 0
    requires Judge(blocking, Post(n), server(at + |requests|)) != Err(BadNonceError)
    ensures var answer := server(at + |requests|);
            Signed(blocking, server, at, haveDirectory, nonce, signs, left) ==
            (requests + [Post(n)], if Judge(blocking, Post(n), answer).Ok? then Some(answer) else None)
  {
    hide Judge, Prelude;
  }

  /** And when it is: the rest is an operation with the nonce of the refusal. */
  lemma SignedGoesOn(blocking: bool, server: Server, at: nat, haveDirectory: bool, nonce: Option<string>,
                     signs: string -> bool, left: nat,
                     requests: Log, n: string)
    requires Prelude(blocking, server, at, haveDirectory, nonce) == (requests, Some(n)) && signs(n) && left > 0
    requires Judge(blocking, Post(n), server(at + |requests|)) == Err(BadNonceError)
    ensures var next := Some(server(at + |requests|).header.n);
            var rest := Signed(blocking, server, at + |requests| + 1, true, next, signs, left - 1);
            Signed(blocking, server, at, haveDirectory, nonce, signs, left) == (requests + [Post(n)] + rest.0, rest.1)
  {
    hide Judge, Prelude;
    var k := at + |requests|;
    PostsGoOn(blocking, server, k, n, signs, left);
    var next := server(k).header.n;
    SignedKnown(blocking, server, k + 1, next, signs, left - 1);
    hide Posts;
    var more := Posts(blocking, server, k + 1, next, signs, left - 1).0;
    assert requests + ([Post(n)] + more) == requests + [Post(n)] + more;
  }

  lemma PostsGoOn(blocking: bool, server: Server, at: nat, n: string, signs: string -> bool, left: nat)
    requires signs(n) && left > 0 && Judge(blocking, Post(n), server(at)) == Err(BadNonceError)
    ensures var rest := Posts(blocking, server, at + 1, server(at).header.n, signs, left - 1);
            Posts(blocking, server, at, n, signs, left) == ([Post(n)] + rest.0, rest.1)
  {
    hide Judge;
  }

  /** The requests made and those still to come are the whole log, with the same reply. */
  ghost predicate Leads(whole: Log, reply: Option<Reply>, log: Log, rest: (Log, Option<Reply>))
  {
    whole == log + rest.0 && reply == rest.1
  }

  lemma LeadsOn(a: Log, b: Log, c: Log)
    ensures a + (b + c) == a + b + c
  {
  }

  lemma SpentAttempts(blocking: bool, server: Server, at: nat, nonce: Option<string>, signs: string -> bool)
    requires nonce.Some?
    ensures Signed(blocking, server, at, true, nonce, signs, 0) == ([], None)
  {
    var nothing: Log := [];
    assert nothing + nothing == nothing;
  }

  /** Without a nonce to sign with, nothing follows the first requests. */
  lemma SignedStops(blocking: bool, server: Server, done: Log, haveDirectory: bool, nonce: Option<string>,
                    signs: string -> bool, left: nat)
    ensures var (requests, n) := Prelude(blocking, server, |done|, haveDirectory, nonce);
            n.None? || !signs(n.value) ==>
              Signed(blocking, server, |done|, haveDirectory, nonce, signs, left) == (requests, None)
  {
    var (requests, n) := Prelude(blocking, server, |done|, haveDirectory, nonce);
    assert requests + [] == requests;
  }

  class AcmeClient {
    const server: Server
    const blocking: bool
    var nonce: Option<string>
    var haveDirectory: bool
    var haveAccount: bool
    var log: Log

    ghost predicate Valid()
      reads this
    {
      nonce == Held(blocking, server, log, |log|) && UsesHeld(blocking, server, log)
    }

    constructor (server: Server, blocking: bool)
      ensures Valid() && log == [] && this.server == server && this.blocking == blocking
    {
      this.server, this.blocking := server, blocking;
      nonce, haveDirectory, haveAccount, log := None, false, false, [];
    }

    method SetAccount()
      modifies this`haveAccount
      ensures haveAccount
    {
      haveAccount := true;
    }

    /** Sends one request, takes the nonce of the reply and judges it. */
    method Execute(req: Request) returns (r: Result<(), Error>, reply: Reply)
      requires Valid() && (req.Post? ==> nonce == Some(req.nonce))
      modifies this`log, this`nonce
      ensures Valid() && log == old(log) + [req] && reply == server(|old(log)|)
      ensures nonce == if Delivers(blocking, req, reply) then Some(reply.header.n) else old(nonce)
      ensures r == Judge(blocking, req, reply)
      ensures reply.Reply? && reply.header.Nonce? && (!blocking || (req.Post? && reply.location)) ==>
                nonce == Some(reply.header.n)
    {
      ghost var before := log;
      reply := server(|log|);
      if Delivers(blocking, req, reply) {
        nonce := Some(reply.header.n);
      }
      log := log + [req];
      r := Judge(blocking, req, reply);
      forall k: nat | k <= |before| ensures Held(blocking, server, log, k) == Held(blocking, server, before, k) {
        HeldPrefix(blocking, server, before, [req], k);
      }
      assert forall i :: 0 <= i < |before| ==> log[i] == before[i];
    }

    method GetDirectory() returns (r: Result<(), Error>)
      requires Valid()
      modifies this`log, this`nonce, this`haveDirectory
      ensures Valid() && (r.Ok? <==> haveDirectory) && r != Err(TooManyRetries)
      ensures haveDirectory <==> old(haveDirectory) || DirectoryFine(blocking, server(|old(log)|))
      ensures log == if old(haveDirectory) then old(log) else old(log) + [Request.GetDirectory]
      ensures nonce == if !old(haveDirectory) && Delivers(blocking, Request.GetDirectory, server(|old(log)|))
                       then Some(server(|old(log)|).header.n) else old(nonce)
    {
      hide UsesHeld, Held;
      if haveDirectory { return Ok(()); }
      var verdict, reply := Execute(Request.GetDirectory);
      if verdict.Err? { return Err(verdict.error); }
      if !reply.parses { return Err(Client); }
      haveDirectory := true;
      return Ok(());
    }

    /** Asks the new-nonce URL for a nonce. */
    method GetNonce() returns (r: Result<(), Error>)
      requires Valid()
      modifies this`log, this`nonce
      ensures Valid() && log == old(log) + [HeadNonce] && r != Err(TooManyRetries)
      ensures r.Ok? <==> NonceFine(blocking, server(|old(log)|))
      ensures r.Ok? ==> nonce == Some(server(|old(log)|).header.n)
    {
      hide UsesHeld, Held;
      var verdict, reply := Execute(HeadNonce);
      if verdict.Err? { return Err(verdict.error); }
      if !reply.header.Nonce? { return Err(InvalidApi); }
      return Ok(());
    }

    /** Makes sure there are a directory and a nonce, asking the new-nonce URL if necessary. */
    method GetDirNonce() returns (r: Result<string, Error>)
      requires Valid()
      modifies this`log, this`nonce, this`haveDirectory
      ensures Valid() && r != Err(TooManyRetries)
      ensures var (requests, n) := Prelude(blocking, server, |old(log)|, old(haveDirectory), old(nonce));
              log == old(log) + requests && (r.Ok? <==> n.Some?) &&
              (r.Ok? ==> haveDirectory && nonce == n == Some(r.value))
    {
      hide UsesHeld, Held;
      var dir := GetDirectory();
      if dir.Err? { return Err(dir.error); }
      if nonce.None? {
        var got := GetNonce();
        if got.Err? { return Err(got.error); }
      }
      return Ok(nonce.value);
    }

    /** The blocking client's public `new_nonce`. A directory request of that client never
        delivers a nonce, so the shortcut for that case is never taken: a success always ends
        with the new-nonce request. */
    method NewNonce() returns (r: Result<(), Error>)
      requires Valid() && blocking
      modifies this`log, this`nonce, this`haveDirectory
      ensures Valid() && (haveDirectory <==> old(haveDirectory) || DirectoryFine(blocking, server(|old(log)|)))
      ensures log == old(log) + (if old(haveDirectory) then [] else [Request.GetDirectory]) +
              (if haveDirectory then [HeadNonce] else [])
      ensures r.Ok? <==> haveDirectory && NonceFine(blocking, server(|log| - 1))
      ensures r.Ok? ==> nonce == Some(server(|log| - 1).header.n)
    {
      hide UsesHeld, Held;
      var wasNone := nonce.None?;
      var dir := GetDirectory();
      if dir.Err? { return Err(dir.error); }
      if wasNone && nonce.Some? { return Ok(()); }
      r := GetNonce();
    }

    /** A signed operation: up to three attempts, repeated only on badNonce. */
    method SignedPost(needsAccount: bool, signs: string -> bool) returns (r: Result<Reply, Error>)
      requires Valid()
      modifies this`log, this`nonce, this`haveDirectory
      ensures Valid()
      ensures needsAccount && !haveAccount ==> log == old(log) && r == Err(NoAccount)
      ensures !needsAccount || haveAccount ==>
                var (requests, reply) := Signed(blocking, server, |old(log)|, old(haveDirectory), old(nonce), signs, 3);
                log == old(log) + requests && (match r case Ok(answer) => Some(answer) case Err(_) => None) == reply
      ensures r.Ok? ==> haveDirectory && nonce.Some? && (r.value.header.Nonce? ==> nonce == Some(r.value.header.n))
    {
      hide UsesHeld, Held, Judge, Signed, Prelude, Posts;
      if needsAccount && !haveAccount { return Err(NoAccount); }
      ghost var goal := Signed(blocking, server, |log|, haveDirectory, nonce, signs, 3);
      var retry := 0;
      while true
        invariant Valid() && 0 <= retry <= 3 && (retry > 0 ==> haveDirectory && nonce.Some?)
        invariant Leads(old(log) + goal.0, goal.1, log,
                        Signed(blocking, server, |log|, haveDirectory, nonce, signs, 3 - retry))
        decreases 3 - retry
      {
        if retry >= 3 {
          SpentAttempts(blocking, server, |log|, nonce, signs);
          return Err(TooManyRetries);
        }
        SignedStops(blocking, server, log, haveDirectory, nonce, signs, 3 - retry);
        ghost var before, had, held := log, haveDirectory, nonce;
        ghost var requests := Prelude(blocking, server, |log|, haveDirectory, nonce).0;
        var n := GetDirNonce();
        if n.Err? { return Err(n.error); }
        if !signs(n.value) { return Err(Unsigned); }
        var verdict, reply := Execute(Post(n.value));
        assert log == before + (requests + [Post(n.value)]);
        if verdict != Err(BadNonceError) {
          SignedEnds(blocking, server, |before|, had, held, signs, 3 - retry, requests, n.value);
        } else {
          SignedGoesOn(blocking, server, |before|, had, held, signs, 3 - retry, requests, n.value);
          LeadsOn(before, requests + [Post(n.value)], Signed(blocking, server, |log|, true, nonce, signs, 2 - retry).0);
        }
        if verdict.Ok? { return Ok(reply); }
        if verdict.error != BadNonceError { return Err(verdict.error); }
        retry := retry + 1;
      }
    }
  }
}

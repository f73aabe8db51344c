/** Which replies make a signed ACME operation succeed, and what it sends then. */
module AcmeRuns {
  import opened Wrappers
  import opened AcmeNonce

  /** The signed request is accepted. */
  predicate Accepted(reply: Reply)
  {
    reply.Reply? && !reply.header.Unreadable? && reply.location && reply.verdict.Fine?
  }

  /** It is refused with badNonce and a nonce to try again with. */
  predicate Renewed(blocking: bool, reply: Reply)
  {
    reply.Reply? && reply.header.Nonce? && reply.verdict.BadNonce? && (blocking ==> reply.location)
  }

  /** The nonce of attempt `i`, when the first attempt is request `at` and uses `n`. */
  function Attempt(server: Server, at: nat, n: string, i: nat): string
  {
    if i == 0 then n
    else if server(at + i - 1).Reply? && server(at + i - 1).header.Nonce? then server(at + i - 1).header.n
    else ""
  }

  /** The first `k` attempts are refused with a nonce for the next one, which is accepted. */
  ghost predicate AcceptedAfter(blocking: bool, server: Server, at: nat, n: string, signs: string -> bool, k: nat)
  {
    (forall i: nat :: i <= k ==> signs(Attempt(server, at, n, i))) &&
    (forall i :: at <= i < at + k ==> Renewed(blocking, server(i))) && Accepted(server(at + k))
  }

  function Attempts(server: Server, at: nat, n: string, k: nat): Log
  {
    seq(k, i requires 0 <= i => Post(Attempt(server, at, n, i)))
  }

  lemma AttemptsCons(server: Server, at: nat, n: string, k: nat)
    requires server(at).Reply? && server(at).header.Nonce?
    ensures Attempts(server, at, n, k + 1) == [Post(n)] + Attempts(server, at + 1, server(at).header.n, k)
  {
    forall i | 0 < i <= k
      ensures Attempt(server, at, n, i) == Attempt(server, at + 1, server(at).header.n, i - 1)
    {
      AttemptNext(server, at, n, i - 1);
    }
  }

  lemma AcceptedNext(blocking: bool, server: Server, at: nat, n: string, signs: string -> bool, k: nat)
    requires Renewed(blocking, server(at)) && signs(n)
    ensures AcceptedAfter(blocking, server, at, n, signs, k + 1) <==>
            AcceptedAfter(blocking, server, at + 1, server(at).header.n, signs, k)
  {
    hide Renewed, Accepted;
    assert server(at).Reply? && server(at).header.Nonce? by { RenewedNonce(blocking, server(at)); }
    var m, next := at + 1, server(at).header.n;
    forall i: nat ensures Attempt(server, at, n, i + 1) == Attempt(server, m, next, i) {
      AttemptNext(server, at, n, i);
    }
    if AcceptedAfter(blocking, server, m, next, signs, k) {
      forall i: nat | i <= k + 1 ensures signs(Attempt(server, at, n, i)) {
        if i > 0 { assert signs(Attempt(server, m, next, i - 1)); }
      }
    }
    if AcceptedAfter(blocking, server, at, n, signs, k + 1) {
      forall i: nat | i <= k ensures signs(Attempt(server, m, next, i)) {
        assert signs(Attempt(server, at, n, i + 1));
      }
    }
  }

  lemma AttemptNext(server: Server, at: nat, n: string, i: nat)
    requires server(at).Reply? && server(at).header.Nonce?
    ensures Attempt(server, at, n, i + 1) == Attempt(server, at + 1, server(at).header.n, i)
  {
    assert i > 0 ==> at + 1 + i - 1 == at + (i + 1) - 1;
  }

  lemma RenewedNonce(blocking: bool, reply: Reply)
    requires Renewed(blocking, reply)
    ensures reply.Reply? && reply.header.Nonce?
  {
  }

  /** Such replies make the attempts succeed, and these are the requests. */
  lemma {:induction false} PostsMeet(blocking: bool, server: Server, at: nat, n: string, signs: string -> bool,
                                     left: nat, k: nat)
    requires k < left && AcceptedAfter(blocking, server, at, n, signs, k)
    ensures Posts(blocking, server, at, n, signs, left) ==
            (Attempts(server, at, n, k + 1), Some(server(at + k)))
    decreases k
  {
    assert signs(Attempt(server, at, n, 0));
    if k > 0 {
      assert Renewed(blocking, server(at));
      AcceptedNext(blocking, server, at, n, signs, k - 1);
      PostsMeet(blocking, server, at + 1, server(at).header.n, signs, left - 1, k - 1);
      PostsGoOn(blocking, server, at, n, signs, left);
      AttemptsCons(server, at, n, k);
    } else {
      assert Attempts(server, at, n, 1) == [Post(n)];
    }
  }

  lemma {:induction false} PostsFind(blocking: bool, server: Server, at: nat, n: string, signs: string -> bool,
                                     left: nat)
    returns (k: nat)
    requires Posts(blocking, server, at, n, signs, left).1.Some?
    ensures k < left && AcceptedAfter(blocking, server, at, n, signs, k)
    decreases left
  {
    if Judge(blocking, Post(n), server(at)) == Err(BadNonceError) {
      PostsGoOn(blocking, server, at, n, signs, left);
      var j := PostsFind(blocking, server, at + 1, server(at).header.n, signs, left - 1);
      AcceptedNext(blocking, server, at, n, signs, j);
      k := j + 1;
    } else {
      k := 0;
    }
  }

  // ---------------------------------------------------------------- the requests before

  /** A directory reply the client keeps. */
  predicate GoodDirectory(blocking: bool, reply: Reply)
  {
    reply.Reply? && !reply.header.Unreadable? && reply.location && reply.parses &&
    (reply.verdict.Fine? || (blocking && reply.verdict.Unexpected?))
  }

  /** A new-nonce reply with a nonce. */
  predicate GoodNonce(blocking: bool, reply: Reply)
  {
    reply.Reply? && reply.header.Nonce? && reply.location &&
    (reply.verdict.Fine? || (blocking && reply.verdict.Unexpected?))
  }

  /** The nonce held when the directory is there: only the asynchronous client takes one from the
      directory reply. */
  function HeldThen(blocking: bool, server: Server, at: nat, haveDirectory: bool, nonce: Option<string>): Option<string>
  {
    if !haveDirectory && !blocking && server(at).Reply? && server(at).header.Nonce? then Some(server(at).header.n)
    else nonce
  }

  /** What is asked first: the directory unless it is there, then a nonce unless one is held. */
  function Asked(blocking: bool, server: Server, at: nat, haveDirectory: bool, nonce: Option<string>): Log
  {
    (if haveDirectory then [] else [GetDirectory]) +
    (if HeldThen(blocking, server, at, haveDirectory, nonce).Some? then [] else [HeadNonce])
  }

  /** Both are answered well, and `n` is the nonce the client then has. */
  ghost predicate Prepared(blocking: bool, server: Server, at: nat, haveDirectory: bool, nonce: Option<string>,
                           n: string)
  {
    (!haveDirectory ==> GoodDirectory(blocking, server(at))) &&
    var held := HeldThen(blocking, server, at, haveDirectory, nonce);
    var last := server(if haveDirectory then at else at + 1);
    if held.Some? then held == Some(n) else GoodNonce(blocking, last) && last.header == Nonce(n)
  }

  lemma PreludeIff(blocking: bool, server: Server, at: nat, haveDirectory: bool, nonce: Option<string>)
    ensures var p := Prelude(blocking, server, at, haveDirectory, nonce);
            (forall n :: p.1 == Some(n) <==> Prepared(blocking, server, at, haveDirectory, nonce, n)) &&
            (p.1.Some? ==> p.0 == Asked(blocking, server, at, haveDirectory, nonce))
  {
  }

  /** A signed operation succeeds if and only if the directory and a nonce are there or are answered
      well, and then at most two attempts are refused with a fresh nonce before one is accepted. */
  ghost predicate Succeeds(blocking: bool, server: Server, at: nat, haveDirectory: bool, nonce: Option<string>,
                           signs: string -> bool, n: string, k: nat)
  {
    k < 3 && Prepared(blocking, server, at, haveDirectory, nonce, n) &&
    AcceptedAfter(blocking, server, at + |Asked(blocking, server, at, haveDirectory, nonce)|, n, signs, k)
  }

  lemma SignedMeets(blocking: bool, server: Server, at: nat, haveDirectory: bool, nonce: Option<string>,
                    signs: string -> bool, n: string, k: nat)
    requires Succeeds(blocking, server, at, haveDirectory, nonce, signs, n, k)
    ensures var asked := Asked(blocking, server, at, haveDirectory, nonce);
            Signed(blocking, server, at, haveDirectory, nonce, signs, 3) ==
            (asked + Attempts(server, at + |asked|, n, k + 1), Some(server(at + |asked| + k)))
  {
    hide Prepared, Prelude, Posts, Asked, AcceptedAfter, Attempts;
    PreludeIff(blocking, server, at, haveDirectory, nonce);
    PostsMeet(blocking, server, at + |Asked(blocking, server, at, haveDirectory, nonce)|, n, signs, 3, k);
  }

  lemma SignedSucceedsIff(blocking: bool, server: Server, at: nat, haveDirectory: bool, nonce: Option<string>,
                          signs: string -> bool)
    ensures Signed(blocking, server, at, haveDirectory, nonce, signs, 3).1.Some? <==>
            exists n, k: nat :: Succeeds(blocking, server, at, haveDirectory, nonce, signs, n, k)
  {
    hide Prepared, Prelude, Posts, Asked, AcceptedAfter, Attempts;
    forall n, k: nat | Succeeds(blocking, server, at, haveDirectory, nonce, signs, n, k)
      ensures Signed(blocking, server, at, haveDirectory, nonce, signs, 3).1.Some?
    {
      SignedMeets(blocking, server, at, haveDirectory, nonce, signs, n, k);
    }
    if Signed(blocking, server, at, haveDirectory, nonce, signs, 3).1.Some? {
      PreludeIff(blocking, server, at, haveDirectory, nonce);
      var p := Prelude(blocking, server, at, haveDirectory, nonce);
      var k := PostsFind(blocking, server, at + |p.0|, p.1.value, signs, 3);
      assert Succeeds(blocking, server, at, haveDirectory, nonce, signs, p.1.value, k);
    }
  }

  /** A fresh client of either kind, and a server whose directory reply has no nonce and whose other
      replies are as they should be: directory, nonce, and one signed request with that nonce. */
  lemma FreshClientSucceeds(blocking: bool, server: Server, signs: string -> bool, n: string)
    requires GoodDirectory(blocking, server(0)) && server(0).header.NoNonce?
    requires GoodNonce(blocking, server(1)) && server(1).header == Nonce(n) && signs(n) && Accepted(server(2))
    ensures Signed(blocking, server, 0, false, None, signs, 3) == ([GetDirectory, HeadNonce, Post(n)], Some(server(2)))
  {
    assert Asked(blocking, server, 0, false, None) == [GetDirectory, HeadNonce];
    assert AcceptedAfter(blocking, server, 2, n, signs, 0);
    assert Succeeds(blocking, server, 0, false, None, signs, n, 0);
    SignedMeets(blocking, server, 0, false, None, signs, n, 0);
    assert Attempts(server, 2, n, 1) == [Post(n)];
    assert [GetDirectory, HeadNonce] + [Post(n)] == [GetDirectory, HeadNonce, Post(n)];
  }
}

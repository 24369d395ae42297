/** The two state-changing calls of the script, `invite_user` and
    `deactivate_user`, with the remote answers given as data. */
module Calls {
  import opened Text
  import opened Directory
  import Backoff

  const Success: string := "SUCCESS"

  /** The answer to one add-user call: a result with a message and the new
      user, a rate limit, or any other exception. */
  datatype InviteReply = Replied(message: string, user: User) | RateLimited | Errored

  /** What `invite_user` hands back to `process_users`: the new user, `False`,
      the bare `True` of its retry path, or an exception that escapes it. */
  datatype Invitation = Invited(user: User) | NotInvited | BareTrue | Escaped

  /** How the retry loop of `invite_user` sees one retry call: a result whose
      message is not SUCCESS is retried like a rate limit, and other
      exceptions are not caught inside the loop. */
  function InviteVerdict(r: InviteReply): Backoff.Verdict<()>
  {
    match r
    case Replied(m, _) => if m == Success then Backoff.Answer(()) else Backoff.Again
    case RateLimited => Backoff.Again
    case Errored => Backoff.Raise
  }

  /** The fates of the retry calls; `reply(0)` answers the first call and
      `reply(k + 1)` the retry `k`. */
  function InviteVerdicts(reply: nat -> InviteReply): nat -> Backoff.Verdict<()>
  {
    (k: nat) => InviteVerdict(reply(k + 1))
  }

  /** A retry answer the loop goes on after. */
  predicate Refusal(r: InviteReply)
  {
    r.RateLimited? || (r.Replied? && r.message != Success)
  }

  /** `invite_user(email)`, where `reply(n)` answers the n-th add-user call. */
  function InviteUser(reply: nat -> InviteReply): (r: Invitation)
    ensures r.Invited? <==> reply(0).Replied? && reply(0).message == Success
    ensures r.Invited? ==> r.user == reply(0).user
    ensures r.BareTrue? || r.Escaped? ==> reply(0).RateLimited?
  {
    match reply(0)
    case Replied(m, u) => if m == Success then Invited(u) else NotInvited
    case Errored => NotInvited
    case RateLimited =>
      match Backoff.RetryBurst(InviteVerdicts(reply)).stop
      case Answered(_, _) => BareTrue
      case Raised(_) => Escaped
      case Exhausted => NotInvited
      case Capped => NotInvited
  }

  /** A retry is refused, as the retry loop sees it, exactly when its
      answer is a rate limit or a message other than SUCCESS. */
  lemma RefusedRetries(reply: nat -> InviteReply)
    ensures Backoff.Refused(InviteVerdicts(reply), 0, Backoff.MaxRetries)
        <==> forall k :: 1 <= k <= Backoff.MaxRetries ==> Refusal(reply(k))
  {
    var verdict := InviteVerdicts(reply);
    forall k | 1 <= k <= Backoff.MaxRetries
      ensures Refusal(reply(k)) <==> verdict(k - 1).Again?
    {
      assert verdict(k - 1) == InviteVerdict(reply(k));
    }
  }

  /** After a rate-limited first call `invite_user` never returns a user:
      it returns `False` exactly when all seven retries are refused, the bare
      `True` only after a retry that succeeded, and lets an exception escape
      only after a retry that raised one. */
  lemma InviteAfterRateLimit(reply: nat -> InviteReply)
    requires reply(0).RateLimited?
    ensures var r := InviteUser(reply);
      && !r.Invited?
      && (r.NotInvited? <==> forall k :: 1 <= k <= Backoff.MaxRetries ==> Refusal(reply(k)))
      && (r.BareTrue? ==> exists k :: 1 <= k <= Backoff.MaxRetries && reply(k).Replied? && reply(k).message == Success)
      && (r.Escaped? ==> exists k :: 1 <= k <= Backoff.MaxRetries && reply(k).Errored?)
  {
    var verdict := InviteVerdicts(reply);
    Backoff.RetryStopsAtFirstNonRefusal(verdict, 0, Backoff.InitialBackoff);
    RefusedRetries(reply);
    var b := Backoff.RetryBurst(verdict);
    var r := InviteUser(reply);
    assert r.NotInvited? <==> b.stop.Exhausted?;
    if b.stop.Answered? {
      var k := b.stop.attempt + 1;
      assert verdict(k - 1) == InviteVerdict(reply(k));
      assert reply(k).Replied? && reply(k).message == Success;
    }
    if b.stop.Raised? {
      var k := b.stop.attempt + 1;
      assert verdict(k - 1) == InviteVerdict(reply(k));
      assert reply(k).Errored?;
    }
  }

  /** The delays `invite_user(email)` sleeps, in order: none unless its first
      add-user call is rate-limited, then those of its retry loop. */
  function InviteSleeps(reply: nat -> InviteReply): (s: seq<nat>)
    ensures reply(0).RateLimited? || s == []
    ensures |s| <= Backoff.MaxRetries
    ensures forall i :: 0 <= i < |s| ==> s[i] == Backoff.Pow2(i + 1)
  {
    if reply(0).RateLimited? then Backoff.RetryBurst(InviteVerdicts(reply)).sleeps else []
  }

  /** After a rate-limited first call, `invite_user` sleeps once before each
      retry it makes: it goes on past every refused retry, stops at the first
      one that is not refused, and sleeps seven times when it returns `False`. */
  lemma InviteSleepsPerRetry(reply: nat -> InviteReply)
    requires reply(0).RateLimited?
    ensures var s := InviteSleeps(reply);
      && 1 <= |s|
      && (forall k :: 1 <= k < |s| ==> Refusal(reply(k)))
      && (InviteUser(reply).NotInvited? <==> |s| == Backoff.MaxRetries && Refusal(reply(|s|)))
      && (!InviteUser(reply).NotInvited? ==> !Refusal(reply(|s|)))
  {
    var verdict := InviteVerdicts(reply);
    Backoff.RetryStopsAtFirstNonRefusal(verdict, 0, Backoff.InitialBackoff);
    var b := Backoff.RetryBurst(verdict);
    var n := |b.sleeps|;
    assert InviteSleeps(reply) == b.sleeps;
    assert InviteUser(reply).NotInvited? <==> b.stop.Exhausted?;
    assert 1 <= n;
    assert Backoff.Refused(verdict, 0, n - 1);
    forall k | 1 <= k < n
      ensures Refusal(reply(k))
    {
      RefusalIsAgain(reply, k);
    }
    RefusalIsAgain(reply, n);
    if b.stop.Exhausted? {
      assert verdict(n - 1).Again?;
    }
  }

  /** Retry `k - 1` is refused exactly when add-user call `k` is answered
      with a rate limit or a message other than SUCCESS. */
  lemma RefusalIsAgain(reply: nat -> InviteReply, k: nat)
    requires 1 <= k
    ensures Refusal(reply(k)) <==> InviteVerdicts(reply)(k - 1).Again?
  {
    assert InviteVerdicts(reply)(k - 1) == InviteVerdict(reply(k));
  }

  /** The decoded body of one deactivate POST: its `message` entry, if any;
      or an exception from the POST, from decoding, or from reading the body. */
  datatype Response = Body(message: Option<string>) | Unreadable

  predicate Succeeded(r: Response)
  {
    r.Body? && r.message == Some(Success)
  }

  /** Whether the user counts as deactivated, and the responses of the POSTs
      actually issued, in order. */
  datatype Deactivation = Deactivation(ok: bool, posts: seq<Response>)

  /** `deactivate_user(id, email)`: `first` and `second` answer the first and
      the (possible) second POST. */
  function DeactivateUser(first: Response, second: Response): (d: Deactivation)
    ensures d.ok <==> exists i :: 0 <= i < |d.posts| && Succeeded(d.posts[i])
    ensures 1 <= |d.posts| <= 2 && d.posts[0] == first
    ensures |d.posts| == 2 <==> first.Body? && !Succeeded(first)
    ensures |d.posts| == 2 ==> d.posts[1] == second
  {
    if Succeeded(first) then
      assert Succeeded([first][0]);
      Deactivation(true, [first])
    else if first.Unreadable? then Deactivation(false, [first])
    else
      assert [first, second][1] == second;
      Deactivation(Succeeded(second), [first, second])
  }

  /** Success iff the first response says SUCCESS or, when it was read and
      said something else, the immediate second one does. */
  lemma DeactivateSuccessRule(first: Response, second: Response)
    ensures DeactivateUser(first, second).ok <==>
              Succeeded(first) || (first.Body? && Succeeded(second))
  {
    var d := DeactivateUser(first, second);
    if first.Body? && !Succeeded(first) && Succeeded(second) {
      assert Succeeded(d.posts[1]);
    }
  }
}

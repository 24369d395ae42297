/** One run of the script: `process_users()` with every remote answer, the
    input file, the DOMAINS setting and the audit file given as data. It
    lists the account, reads the input records, builds the worklist of users
    to deactivate (inviting missing users of controlled domains first), then
    deactivates the worklist in order and appends one audit row per success.
 */
module Batch {
  import opened Text
  import opened Directory
  import opened Classifier
  import opened Calls
  import opened Reconcile
  import opened Audit
  import ListingFacts

  /** The account and its answers: the users it lists, the disturbances of
      the list calls, the answer to add-user call `k` for data record `r`
      (`invite(r, k)`), the answer to POST `n` for worklist entry `k`
      (`respond(k, n)`), and the time stamp of worklist entry `k`. */
  datatype Remote = Remote(
    directory: seq<User>,
    listing: seq<Signal>,
    invite: (nat, nat) -> InviteReply,
    respond: (nat, nat) -> Response,
    clock: nat -> string)

  /** How the run ended: the input file was missing, an exception ended it
      before the audit file was opened, or it went through the worklist. */
  datatype Finish = InputMissing | Aborted | Completed(plan: Plan, outcomes: seq<bool>)

  /** The listing obtained, how the run ended, and the audit file afterwards. */
  datatype Run = Run(listing: Listing, ending: Finish, log: seq<Row>)

  function Outcomes(worklist: seq<Entry>, respond: (nat, nat) -> Response): seq<bool>
  {
    seq(|worklist|, k requires 0 <= k < |worklist| => Outcome(respond, k))
  }

  /** `process_users()`. The input file is `None` when it does not exist,
      otherwise its records, the first being the header. */
  function ProcessUsers(remote: Remote, setting: Option<string>, input: Option<seq<seq<string>>>,
                        log: seq<Row>): (r: Run)
    ensures r.listing == ListAllUsers(remote.directory, remote.listing)
    ensures input.None? ==> !r.ending.Completed?
    ensures r.listing.end == Uncaught ==> r.ending.Aborted?
    ensures r.ending.InputMissing? <==> r.listing.end != Uncaught && input.None?
    ensures r.ending.Completed? <==>
              && r.listing.end != Uncaught && input.Some? && |input.value| > 0
              && BuildPlan(input.value[1..], r.listing.users, ParseDomains(setting), remote.invite, 0).Built?
    ensures !r.ending.Completed? ==> r.log == log
    ensures r.ending.Completed? ==>
              && |r.ending.outcomes| == |r.ending.plan.worklist|
              && (forall k :: 0 <= k < |r.ending.outcomes| ==> r.ending.outcomes[k] == Outcome(remote.respond, k))
              && |r.log| == |log| + |HeaderIfEmpty(log)| + Count(r.ending.outcomes)
              && r.log[..|log|] == log
              && (|log| == 0 ==> r.log[0] == Header)
              && (forall i :: |log + HeaderIfEmpty(log)| <= i < |r.log| ==>
                    r.log[i].Record? && r.log[i].status == Deactivated)
    ensures r.ending.Completed? ==>
              && input.Some? && |input.value| > 0
              && BuildPlan(input.value[1..], r.listing.users, ParseDomains(setting), remote.invite, 0)
                   == Built(r.ending.plan)
              && r.log == log + HeaderIfEmpty(log) + Logged(r.ending.plan.worklist, r.ending.outcomes, remote.clock)
  {
    var listing := ListAllUsers(remote.directory, remote.listing);
    if listing.end == Uncaught then Run(listing, Aborted, log)
    else if input.None? then Run(listing, InputMissing, log)
    else if |input.value| == 0 then Run(listing, Aborted, log)
    else
      match BuildPlan(input.value[1..], listing.users, ParseDomains(setting), remote.invite, 0)
      case Crashed => Run(listing, Aborted, log)
      case Built(plan) =>
        var outcomes := Outcomes(plan.worklist, remote.respond);
        Run(listing, Completed(plan, outcomes), log + HeaderIfEmpty(log) + Logged(plan.worklist, outcomes, remote.clock))
  }

  /** Running the script again on the same input against an unchanged
      account deactivates the same users again and appends their rows a
      second time: the log is never read back and never deduplicated, and the
      header is not repeated. */
  lemma RerunAppendsAgain(remote: Remote, setting: Option<string>, input: Option<seq<seq<string>>>, log: seq<Row>)
    requires ProcessUsers(remote, setting, input, log).ending.Completed?
    ensures var first := ProcessUsers(remote, setting, input, log);
      var second := ProcessUsers(remote, setting, input, first.log);
      && second.ending == first.ending
      && second.log == first.log + first.log[|log + HeaderIfEmpty(log)|..]
  {
    var first := ProcessUsers(remote, setting, input, log);
    var plan := first.ending.plan;
    var rows := Logged(plan.worklist, first.ending.outcomes, remote.clock);
    assert first.log == (log + HeaderIfEmpty(log)) + rows;
    assert |first.log| > 0;
    assert first.log[|log + HeaderIfEmpty(log)|..] == rows;
  }

  /** When the listing reaches the end of the data, the worklist is the one
      the directory itself gives: the repeated last page that the listing
      as written can return does not change what is invited or deactivated. */
  lemma RepeatedPageIsHarmless(remote: Remote, setting: Option<string>, input: Option<seq<seq<string>>>, log: seq<Row>)
    requires ProcessUsers(remote, setting, input, log).ending.Completed?
    requires ProcessUsers(remote, setting, input, log).listing.end == EndOfData
    ensures input.Some? && |input.value| > 0
    ensures BuildPlan(input.value[1..], remote.directory, ParseDomains(setting), remote.invite, 0)
         == Built(ProcessUsers(remote, setting, input, log).ending.plan)
  {
    var listing := ListAllUsers(remote.directory, remote.listing);
    ListingFacts.ListingEchoes(remote.directory, remote.listing);
    BuildPlanCovered(input.value[1..], listing.users, remote.directory, ParseDomains(setting), remote.invite, 0);
  }

  /** The domain of an address with a single '@' is everything after it. */
  lemma DomainOfSimple(local: string, domain: string)
    requires '@' !in local && '@' !in domain
    ensures DomainOf(local + "@" + domain) == Some(domain)
  {
    var email := local + "@" + domain;
    assert email[|local|] == '@';
    forall j | 0 <= j < |local|
      ensures email[j] != '@'
    {
      assert email[j] == local[j];
    }
    IndexOfFirst(email, '@', |local|);
    var start := |local| + 1;
    var d := DomainOf(email).value;
    assert email[start..] == domain;
    assert d == email[start..];
  }

  /** The account of the scenario below: one listed user, every add-user
      call and every POST answered with SUCCESS, one fixed time stamp. */
  function Scenario(): Remote
  {
    Remote([User(7, "a@x.com")], [],
           (r: nat, k: nat) => Replied(Success, User(9, "b@y.com")),
           (k: nat, n: nat) => Body(Some(Success)),
           (k: nat) => "t")
  }

  function ScenarioRecords(): seq<seq<string>>
  {
    [["a@x.com"], ["b@y.com"], ["c@z.com"]]
  }

  function ScenarioPlan(): Plan
  {
    Plan([Entry(7, "a@x.com"), Entry(9, "b@y.com")], ["b@y.com"], ["c@z.com"])
  }

  lemma ScenarioListedUser()
    ensures Classify("a@x.com", Scenario().directory, ["y.com"]) == Present(7)
  {
    assert "a" + "@" + "x.com" == "a@x.com";
    DomainOfSimple("a", "x.com");
    assert FirstMatch(Scenario().directory, "a@x.com") == Some(0);
  }

  lemma ScenarioControlledUser()
    ensures Classify("b@y.com", Scenario().directory, ["y.com"]) == Controlled
  {
    var email := "b@y.com";
    assert "b" + "@" + "y.com" == email;
    DomainOfSimple("b", "y.com");
    var dir := Scenario().directory;
    assert |dir| == 1 && dir[0].email != email by {
      assert email[0] != "a@x.com"[0];
    }
    assert !Listed(dir, email);
  }

  lemma ScenarioOutsideUser()
    ensures Classify("c@z.com", Scenario().directory, ["y.com"]) == Outside
  {
    var email := "c@z.com";
    assert "c" + "@" + "z.com" == email;
    DomainOfSimple("c", "z.com");
    var dir := Scenario().directory;
    assert |dir| == 1 && dir[0].email != email by {
      assert email[0] != "a@x.com"[0];
    }
    assert !Listed(dir, email);
    assert "z.com" !in ["y.com"] by {
      assert "z.com"[0] != "y.com"[0];
    }
  }

  function ScenarioEffects(): seq<Effect>
  {
    Effects(ScenarioRecords(), Scenario().directory, ["y.com"], Scenario().invite, 0)
  }

  lemma ScenarioFirstRow()
    ensures ScenarioEffects()[0] == Queue(Entry(7, "a@x.com"), false)
  {
    ScenarioListedUser();
  }

  lemma ScenarioSecondRow()
    ensures ScenarioEffects()[1] == Queue(Entry(9, "b@y.com"), true)
  {
    var reply := RowReplies(Scenario().invite, 1);
    var record := ScenarioRecords()[1];
    assert record == ["b@y.com"];
    ScenarioControlledUser();
    assert reply(0) == Replied(Success, User(9, "b@y.com"));
    InvitedIsQueued(record, Scenario().directory, ["y.com"], reply);
    assert ScenarioEffects()[1] == RowEffect(record, Scenario().directory, ["y.com"], reply);
  }

  lemma ScenarioThirdRow()
    ensures ScenarioEffects()[2] == Skip("c@z.com")
  {
    ScenarioOutsideUser();
  }

  lemma ScenarioEffectList()
    ensures ScenarioEffects() == [Queue(Entry(7, "a@x.com"), false), Queue(Entry(9, "b@y.com"), true), Skip("c@z.com")]
  {
    ScenarioFirstRow();
    ScenarioSecondRow();
    ScenarioThirdRow();
    assert |ScenarioEffects()| == 3;
    Triple(ScenarioEffects(), Queue(Entry(7, "a@x.com"), false), Queue(Entry(9, "b@y.com"), true), Skip("c@z.com"));
  }

  /** Small sequence facts for the concrete scenario below. */
  lemma Cons<T>(empty: seq<T>, x: T, rest: seq<T>)
    requires |rest| == 2 && empty == []
    ensures empty + [x] + rest == [x, rest[0], rest[1]]
  {
  }

  lemma Triple<T>(s: seq<T>, a: T, b: T, c: T)
    requires |s| == 3 && s[0] == a && s[1] == b && s[2] == c
    ensures s == [a, b, c]
  {
  }

  lemma ScenarioAssembled()
    ensures Assemble([Queue(Entry(7, "a@x.com"), false), Queue(Entry(9, "b@y.com"), true), Skip("c@z.com")])
         == Built(ScenarioPlan())
  {
    var es := [Queue(Entry(7, "a@x.com"), false), Queue(Entry(9, "b@y.com"), true), Skip("c@z.com")];
    assert es[1..][1..] == [Skip("c@z.com")];
  }

  lemma ScenarioBuilt()
    ensures Assemble(ScenarioEffects()) == Built(ScenarioPlan())
  {
    ScenarioEffectList();
    ScenarioAssembled();
  }

  lemma ScenarioOutcomes()
    ensures Outcomes(ScenarioPlan().worklist, Scenario().respond) == [true, true]
  {
    var respond := Scenario().respond;
    assert Succeeded(respond(0, 0)) && Succeeded(respond(1, 0));
    assert Outcome(respond, 0) && Outcome(respond, 1);
  }

  lemma ScenarioLogged()
    ensures Logged(ScenarioPlan().worklist, [true, true], Scenario().clock)
         == [Record("a@x.com", 7, Deactivated, "t"), Record("b@y.com", 9, Deactivated, "t")]
  {
    var worklist, clock := ScenarioPlan().worklist, Scenario().clock;
    assert [true, true][..1] == [true];
    assert [true][..0] == [];
    assert Logged(worklist, [true], clock) == [Record("a@x.com", 7, Deactivated, "t")];
  }

  /** A run whose plan is built goes through the whole worklist. */
  lemma CompletedRun(remote: Remote, setting: Option<string>, input: seq<seq<string>>, log: seq<Row>, plan: Plan)
    requires ListAllUsers(remote.directory, remote.listing).end != Uncaught
    requires |input| > 0
    requires BuildPlan(input[1..], ListAllUsers(remote.directory, remote.listing).users,
                       ParseDomains(setting), remote.invite, 0) == Built(plan)
    ensures var outcomes := Outcomes(plan.worklist, remote.respond);
      ProcessUsers(remote, setting, Some(input), log).ending == Completed(plan, outcomes)
      && ProcessUsers(remote, setting, Some(input), log).log
           == log + HeaderIfEmpty(log) + Logged(plan.worklist, outcomes, remote.clock)
  {
  }

  /** Three input records: a user of the account, a missing user of a
      controlled domain, and an address outside control. The first is
      deactivated directly, the second invited and then deactivated, the
      third skipped; the new audit file holds the header and two rows. */
  lemma EndToEndScenario()
    ensures var run := ProcessUsers(Scenario(), Some("y.com"), Some([["Email"]] + ScenarioRecords()), []);
      && run.ending == Completed(ScenarioPlan(), [true, true])
      && run.log == [Header,
                     Record("a@x.com", 7, Deactivated, "t"),
                     Record("b@y.com", 9, Deactivated, "t")]
  {
    var remote := Scenario();
    var input := [["Email"]] + ScenarioRecords();
    ListingFacts.PlainListing(remote.directory, remote.listing);
    var listing := ListAllUsers(remote.directory, remote.listing);
    assert listing.users == remote.directory && listing.end == EndOfData;
    assert ',' !in "y.com";
    SingleDomain("y.com");
    assert input[1..] == ScenarioRecords();
    ScenarioBuilt();
    CompletedRun(remote, Some("y.com"), input, [], ScenarioPlan());
    ScenarioOutcomes();
    ScenarioLogged();
    var rows := [Record("a@x.com", 7, Deactivated, "t"), Record("b@y.com", 9, Deactivated, "t")];
    Cons([], Header, rows);
  }
}

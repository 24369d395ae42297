/** The `for user in users` loop of `process_users`: each input record is
    looked up in the listed users and put on the worklist with the id of its
    first match, invited first when it is missing from a controlled domain,
    or skipped when its domain is outside control. A record that raises
    ends the whole run.
 */
module Reconcile {
  import opened Text
  import opened Directory
  import opened Classifier
  import opened Calls
  import ListingFacts

  /** One worklist item: the user id to deactivate and its address. */
  datatype Entry = Entry(id: int, email: string)

  /** The worklist, and the invited and skipped addresses, in input order. */
  datatype Plan = Plan(worklist: seq<Entry>, invited: seq<string>, skipped: seq<string>)

  /** What one input record does: put an entry on the worklist (after an
      invite or not), nothing, record a skip, or raise an exception that ends
      the whole run. */
  datatype Effect = Queue(entry: Entry, invited: bool) | Pass | Skip(email: string) | Crash

  /** The handling of one input record; `reply` answers its add-user calls. */
  function RowEffect(record: seq<string>, snapshot: seq<User>, domains: seq<string>,
                     reply: nat -> InviteReply): (e: Effect)
    ensures e.Crash? <==>
              || |record| == 0
              || '@' !in record[0]
              || (Classify(record[0], snapshot, domains).Controlled?
                  && (InviteUser(reply).BareTrue? || InviteUser(reply).Escaped?))
    ensures e.Queue? ==> e.entry.email == record[0]
    ensures e.Queue? && !e.invited ==>
              && e.entry.id != 0
              && exists i :: 0 <= i < |snapshot| && snapshot[i] == User(e.entry.id, record[0])
                             && forall j :: 0 <= j < i ==> snapshot[j].email != record[0]
    ensures e.Queue? && e.invited ==>
              && '@' in record[0]
              && !Listed(snapshot, record[0])
              && DomainOf(record[0]).value in domains
              && reply(0).Replied? && reply(0).message == Success
              && e.entry.id == reply(0).user.id
    ensures e.Skip? <==>
              && |record| > 0
              && '@' in record[0]
              && !Listed(snapshot, record[0])
              && DomainOf(record[0]).value !in domains
    ensures e.Skip? ==> e.email == record[0]
  {
    if |record| == 0 then Crash
    else
      var email := record[0];
      match Classify(email, snapshot, domains)
      case Malformed => Crash
      case Present(id) => if id != 0 then Queue(Entry(id, email), false) else Pass
      case Controlled =>
        (match InviteUser(reply)
         case Invited(u) => Queue(Entry(u.id, email), true)
         case NotInvited => Pass
         case BareTrue => Crash
         case Escaped => Crash)
      case Outside => Skip(email)
  }

  /** A listed address whose first matching user has a nonzero id is queued
      with that id, without an invite. */
  lemma ListedIsQueued(record: seq<string>, snapshot: seq<User>, domains: seq<string>,
                       reply: nat -> InviteReply, i: nat)
    requires |record| > 0 && '@' in record[0]
    requires i < |snapshot| && snapshot[i].email == record[0] && snapshot[i].id != 0
    requires forall j :: 0 <= j < i ==> snapshot[j].email != record[0]
    ensures RowEffect(record, snapshot, domains, reply) == Queue(Entry(snapshot[i].id, record[0]), false)
  {
    var m := FirstMatch(snapshot, record[0]);
    assert m.Some?;
    assert m.value == i;
  }

  /** A missing address of a controlled domain whose first add-user call
      says SUCCESS is queued with the new user's id, as invited. */
  lemma InvitedIsQueued(record: seq<string>, snapshot: seq<User>, domains: seq<string>,
                        reply: nat -> InviteReply)
    requires |record| > 0 && '@' in record[0]
    requires !Listed(snapshot, record[0]) && DomainOf(record[0]).value in domains
    requires reply(0).Replied? && reply(0).message == Success
    ensures RowEffect(record, snapshot, domains, reply) == Queue(Entry(reply(0).user.id, record[0]), true)
  {
  }

  function Entries(e: Effect): seq<Entry>
  {
    if e.Queue? then [e.entry] else []
  }

  function Invites(e: Effect): seq<string>
  {
    if e.Queue? && e.invited then [e.entry.email] else []
  }

  function Skips(e: Effect): seq<string>
  {
    if e.Skip? then [e.email] else []
  }

  /** The plan, or an exception that ends the run before anything is logged. */
  datatype Built = Built(plan: Plan) | Crashed

  /** The answers to the add-user calls made for data record `row`. */
  function RowReplies(invite: (nat, nat) -> InviteReply, row: nat): nat -> InviteReply
  {
    (k: nat) => invite(row, k)
  }

  /** The effect of every data record, the first of them being data record
      `row`; the add-user calls of data record `r` are answered by `invite(r, _)`. */
  function Effects(records: seq<seq<string>>, snapshot: seq<User>, domains: seq<string>,
                   invite: (nat, nat) -> InviteReply, row: nat): seq<Effect>
  {
    seq(|records|, i requires 0 <= i < |records| =>
      RowEffect(records[i], snapshot, domains, RowReplies(invite, row + i)))
  }

  /** The lists `process_users` builds from the effects of its records, in
      order; an exception in any record ends the run. */
  function Assemble(effects: seq<Effect>): (b: Built)
    ensures b.Built? <==> forall i :: 0 <= i < |effects| ==> !effects[i].Crash?
    ensures b.Built? ==> |b.plan.worklist| + |b.plan.skipped| <= |effects|
    ensures b.Built? ==> |b.plan.invited| <= |b.plan.worklist|
  {
    if |effects| == 0 then Built(Plan([], [], []))
    else if effects[0].Crash? then Crashed
    else Extend(effects[0], Assemble(effects[1..]))
  }

  /** The plan of the records after this one, with this record's effect put
      in front. */
  function Extend(e: Effect, rest: Built): Built
  {
    match rest
    case Crashed => Crashed
    case Built(p) => Built(Plan(Entries(e) + p.worklist, Invites(e) + p.invited, Skips(e) + p.skipped))
  }

  /** The `for user in users` loop of `process_users` over the data records. */
  function BuildPlan(records: seq<seq<string>>, snapshot: seq<User>, domains: seq<string>,
                     invite: (nat, nat) -> InviteReply, row: nat): (b: Built)
    ensures b.Built? <==>
              forall i :: 0 <= i < |records| ==>
                !RowEffect(records[i], snapshot, domains, RowReplies(invite, row + i)).Crash?
    ensures b.Built? ==> |b.plan.worklist| + |b.plan.skipped| <= |records|
    ensures b.Built? ==> |b.plan.invited| <= |b.plan.worklist|
  {
    var effects := Effects(records, snapshot, domains, invite, row);
    assert forall i :: 0 <= i < |records| ==>
      effects[i] == RowEffect(records[i], snapshot, domains, RowReplies(invite, row + i));
    Assemble(effects)
  }

  /** Plans of consecutive runs of records, put together in order. */
  function Combine(a: Built, b: Built): Built
  {
    match (a, b)
    case (Built(p), Built(q)) =>
      Built(Plan(p.worklist + q.worklist, p.invited + q.invited, p.skipped + q.skipped))
    case _ => Crashed
  }

  lemma ExtendCombine(e: Effect, a: Built, b: Built)
    ensures Extend(e, Combine(a, b)) == Combine(Extend(e, a), b)
  {
    if a.Built? && b.Built? {
      var p, q := a.plan, b.plan;
      assert Entries(e) + (p.worklist + q.worklist) == (Entries(e) + p.worklist) + q.worklist;
      assert Invites(e) + (p.invited + q.invited) == (Invites(e) + p.invited) + q.invited;
      assert Skips(e) + (p.skipped + q.skipped) == (Skips(e) + p.skipped) + q.skipped;
    }
  }

  lemma {:induction false} AssembleAppend(es: seq<Effect>, fs: seq<Effect>)
    ensures Assemble(es + fs) == Combine(Assemble(es), Assemble(fs))
  {
    if |es| == 0 {
      assert es + fs == fs;
      var b := Assemble(fs);
      if b.Built? {
        assert [] + b.plan.worklist == b.plan.worklist;
        assert [] + b.plan.invited == b.plan.invited;
        assert [] + b.plan.skipped == b.plan.skipped;
      }
    } else {
      assert (es + fs)[0] == es[0];
      assert (es + fs)[1..] == es[1..] + fs;
      AssembleAppend(es[1..], fs);
      if !es[0].Crash? {
        ExtendCombine(es[0], Assemble(es[1..]), Assemble(fs));
      }
    }
  }

  /** The worklist follows the input: the plan for two runs of records is the
      plan for the first followed by the plan for the second. */
  lemma BuildPlanAppend(xs: seq<seq<string>>, ys: seq<seq<string>>, snapshot: seq<User>,
                        domains: seq<string>, invite: (nat, nat) -> InviteReply, row: nat)
    ensures BuildPlan(xs + ys, snapshot, domains, invite, row)
         == Combine(BuildPlan(xs, snapshot, domains, invite, row),
                    BuildPlan(ys, snapshot, domains, invite, row + |xs|))
  {
    var es := Effects(xs, snapshot, domains, invite, row);
    var fs := Effects(ys, snapshot, domains, invite, row + |xs|);
    var gs := Effects(xs + ys, snapshot, domains, invite, row);
    forall i | 0 <= i < |gs|
      ensures gs[i] == (es + fs)[i]
    {
      if i >= |xs| {
        assert (xs + ys)[i] == ys[i - |xs|];
        assert row + i == (row + |xs|) + (i - |xs|);
      }
    }
    assert gs == es + fs;
    AssembleAppend(es, fs);
  }

  /** A single record contributes at most one worklist entry: the one its
      effect names. */
  lemma SingleRecord(record: seq<string>, snapshot: seq<User>, domains: seq<string>,
                     invite: (nat, nat) -> InviteReply, row: nat)
    ensures var e := RowEffect(record, snapshot, domains, RowReplies(invite, row));
      BuildPlan([record], snapshot, domains, invite, row)
        == if e.Crash? then Crashed else Built(Plan(Entries(e), Invites(e), Skips(e)))
  {
    var e := RowEffect(record, snapshot, domains, RowReplies(invite, row));
    var es := Effects([record], snapshot, domains, invite, row);
    assert es == [e];
    assert es[1..] == [];
    assert Entries(e) + [] == Entries(e);
    assert Invites(e) + [] == Invites(e);
    assert Skips(e) + [] == Skips(e);
  }

  /** Over a listing that repeats users already listed, the plan is the one
      built over the directory itself. */
  lemma BuildPlanCovered(records: seq<seq<string>>, users: seq<User>, dir: seq<User>,
                         domains: seq<string>, invite: (nat, nat) -> InviteReply, row: nat)
    requires ListingFacts.Covered(users, dir)
    ensures BuildPlan(records, users, domains, invite, row) == BuildPlan(records, dir, domains, invite, row)
  {
    var es := Effects(records, users, domains, invite, row);
    var fs := Effects(records, dir, domains, invite, row);
    forall i | 0 <= i < |records|
      ensures es[i] == fs[i]
    {
      if |records[i]| > 0 {
        ClassifyCovered(records[i][0], users, dir, domains);
      }
    }
    assert es == fs;
  }
}

/** The per-address decision of `process_users`: is the address already a
    user of the account (and with which id), or is it missing but in one of
    the controlled domains, or is it outside control. Also the parsing of the
    DOMAINS setting and of the domain part of an address.
 */
module Classifier {
  import opened Text
  import opened Directory
  import ListingFacts

  /** The DOMAINS setting: no domains when unset or empty, otherwise the
      comma-separated pieces exactly as written (no trimming). */
  function ParseDomains(setting: Option<string>): (domains: seq<string>)
    ensures domains == [] <==> (setting.None? || setting.value == "")
    ensures forall i :: 0 <= i < |domains| ==> ',' !in domains[i]
    ensures domains != [] ==> Join(domains, ',') == setting.value
  {
    if setting.None? || setting.value == "" then []
    else
      JoinSplit(setting.value, ',');
      Split(setting.value, ',')
  }

  /** A setting without a comma names a single domain, exactly as written. */
  lemma SingleDomain(setting: string)
    requires setting != "" && ',' !in setting
    ensures ParseDomains(Some(setting)) == [setting]
  {
    SplitWhole(setting, ',');
  }

  /** `email.split("@")[1]`: the text after the first '@' up to the next '@'
      or the end; there is none (the index raises) when the address has no '@'. */
  function DomainOf(email: string): (d: Option<string>)
    ensures d.Some? <==> '@' in email
    ensures d.Some? ==>
              var start := IndexOf(email, '@') + 1;
              && start + |d.value| <= |email|
              && email[start..start + |d.value|] == d.value
              && '@' !in d.value
              && (start + |d.value| == |email| || email[start + |d.value|] == '@')
  {
    var parts := Split(email, '@');
    if |parts| >= 2 then
      SplitAfterFirst(email, '@');
      FirstPieceFrom(email, IndexOf(email, '@') + 1, '@');
      assert parts[1] == parts[1..][0];
      Some(parts[1])
    else
      None
  }

  /** Position of the first user of the snapshot with exactly this address. */
  function FirstMatch(snapshot: seq<User>, email: string): (r: Option<nat>)
    ensures r.None? <==> forall i :: 0 <= i < |snapshot| ==> snapshot[i].email != email
    ensures r.Some? ==>
              && r.value < |snapshot|
              && snapshot[r.value].email == email
              && forall j :: 0 <= j < r.value ==> snapshot[j].email != email
  {
    if |snapshot| == 0 then None
    else if snapshot[0].email == email then Some(0)
    else
      match FirstMatch(snapshot[1..], email)
      case None => None
      case Some(i) => Some(i + 1)
  }

  /** What `process_users` does with one address: the split on '@' fails,
      the address belongs to a user (the first one in the snapshot), the
      address is missing but its domain is controlled, or it is outside
      control. */
  datatype Disposition = Malformed | Present(id: int) | Controlled | Outside

  predicate Listed(snapshot: seq<User>, email: string)
  {
    exists i :: 0 <= i < |snapshot| && snapshot[i].email == email
  }

  function Classify(email: string, snapshot: seq<User>, domains: seq<string>): (d: Disposition)
    ensures d.Malformed? <==> '@' !in email
    ensures d.Present? <==> '@' in email && Listed(snapshot, email)
    ensures d.Present? ==>
              exists i :: 0 <= i < |snapshot| && snapshot[i] == User(d.id, email)
                          && forall j :: 0 <= j < i ==> snapshot[j].email != email
    ensures d.Controlled? <==>
              '@' in email && !Listed(snapshot, email) && DomainOf(email).value in domains
    ensures d.Outside? <==>
              '@' in email && !Listed(snapshot, email) && DomainOf(email).value !in domains
  {
    match DomainOf(email)
    case None => Malformed
    case Some(domain) =>
      match FirstMatch(snapshot, email)
      case Some(i) => Present(snapshot[i].id)
      case None => if domain in domains then Controlled else Outside
  }

  /** A first match depends only on the users up to it. */
  lemma FirstMatchFound(users: seq<User>, dir: seq<User>, email: string)
    requires |dir| <= |users|
    requires forall i :: 0 <= i < |dir| ==> users[i] == dir[i]
    requires FirstMatch(dir, email).Some?
    ensures FirstMatch(users, email) == FirstMatch(dir, email)
  {
    var a := FirstMatch(dir, email).value;
    assert users[a].email == email;
    var b := FirstMatch(users, email).value;
    assert b <= a;
    assert dir[b] == users[b];
  }

  /** Repeats of users already in the snapshot change nothing: the first
      match is found at the same place. */
  lemma FirstMatchCovered(users: seq<User>, dir: seq<User>, email: string)
    requires ListingFacts.Covered(users, dir)
    ensures FirstMatch(users, email) == FirstMatch(dir, email)
  {
    forall i | 0 <= i < |dir|
      ensures users[i] == dir[i]
    {
      assert users[..|dir|][i] == users[i];
    }
    if FirstMatch(dir, email).None? {
      forall i | 0 <= i < |users|
        ensures users[i].email != email
      {
        if i >= |dir| {
          assert users[i] in dir;
        }
      }
    } else {
      FirstMatchFound(users, dir, email);
    }
  }

  /** The listing as written may repeat its last page; classification over
      such a listing is the same as over the directory itself. */
  lemma ClassifyCovered(email: string, users: seq<User>, dir: seq<User>, domains: seq<string>)
    requires ListingFacts.Covered(users, dir)
    ensures Classify(email, users, domains) == Classify(email, dir, domains)
  {
    FirstMatchCovered(users, dir, email);
    var m := FirstMatch(dir, email);
    if m.Some? {
      assert users[m.value] == dir[m.value] by {
        assert users[..|dir|][m.value] == users[m.value];
      }
    }
  }
}

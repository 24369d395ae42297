/** What `get_all_users` guarantees, and where the code as written falls short. */
module ListingFacts {
  import Backoff
  import opened Directory

  /** No list call of the script is disturbed. */
  predicate AllServed(script: seq<Signal>)
  {
    forall i :: 0 <= i < |script| ==> script[i] == Served
  }

  /** No list call of the script is rate-limited. */
  predicate NeverThrottled(script: seq<Signal>)
  {
    forall i :: 0 <= i < |script| ==> script[i] != Throttled
  }

  /** `users` holds the whole directory in order, followed by repeats of
      users already in it. */
  predicate Covered(users: seq<User>, dir: seq<User>)
  {
    && |dir| <= |users|
    && users[..|dir|] == dir
    && forall i :: |dir| <= i < |users| ==> users[i] in dir
  }

  /** `users` is a prefix of the directory, or covers it with repeats. */
  predicate EchoOf(users: seq<User>, dir: seq<User>)
  {
    (|users| <= |dir| && users == dir[..|users|]) || Covered(users, dir)
  }

  lemma PrefixThenPage(dir: seq<User>, page: nat)
    requires 1 <= page && (page - 1) * PageSize <= |dir|
    ensures dir[..(page - 1) * PageSize] + PageOf(dir, page) == dir[..(page - 1) * PageSize + |PageOf(dir, page)|]
    ensures |PageOf(dir, page)| < PageSize ==> dir[..(page - 1) * PageSize] + PageOf(dir, page) == dir
  {
  }

  /** With every call served, the listing asks for pages 1, 2, ... up to the
      first short page, that is `N / 1000 + 1` calls for `N` users, sleeps
      never, and returns every user exactly once, in page order. */
  lemma PlainWalk(v: Variant, dir: seq<User>, script: seq<Signal>, page: nat, acc: seq<User>)
    requires 1 <= page && (page - 1) * PageSize <= |dir|
    requires acc == dir[..(page - 1) * PageSize]
    requires AllServed(script)
    ensures var l := Walk(v, dir, script, page, acc);
      && l.users == dir
      && l.end == EndOfData
      && l.sleeps == []
      && |l.requests| == |dir| / PageSize + 2 - page
      && forall i :: 0 <= i < |l.requests| ==> l.requests[i] == page + i
  {
    assert NeverThrottled(script);
    UnthrottledWalk(v, dir, script, page, acc);
    PlainRequests(v, dir, script, page, acc);
  }

  /** The pages asked for when every call is served. */
  lemma {:induction false} PlainRequests(v: Variant, dir: seq<User>, script: seq<Signal>, page: nat, acc: seq<User>)
    requires 1 <= page && (page - 1) * PageSize <= |dir|
    requires AllServed(script)
    ensures var l := Walk(v, dir, script, page, acc);
      && l.end == EndOfData
      && |l.requests| == |dir| / PageSize + 2 - page
      && forall i :: 0 <= i < |l.requests| ==> l.requests[i] == page + i
    decreases |dir| - (page - 1) * PageSize
  {
    var p := PageOf(dir, page);
    assert SignalAt(script, 0) == Served;
    if |p| == PageSize {
      assert AllServed(Drop(script, 1));
      PlainRequests(v, dir, Drop(script, 1), page + 1, acc + p);
      assert |dir| / PageSize >= page;
    } else {
      assert |dir| / PageSize == page - 1;
    }
  }

  lemma PlainListing(dir: seq<User>, script: seq<Signal>)
    requires AllServed(script)
    ensures var l := ListAllUsers(dir, script);
      && l.users == dir
      && l.end == EndOfData
      && l.sleeps == []
      && |l.requests| == |dir| / PageSize + 1
      && forall i :: 0 <= i < |l.requests| ==> l.requests[i] == i + 1
  {
    PlainWalk(AsWritten, dir, script, 1, []);
  }

  /** Without rate limits the listing never sleeps, and what it returns is a
      prefix of the directory: all of it after a short page, the pages read
      before the failed call after an error. */
  lemma UnthrottledWalk(v: Variant, dir: seq<User>, script: seq<Signal>, page: nat, acc: seq<User>)
    requires 1 <= page && (page - 1) * PageSize <= |dir|
    requires acc == dir[..(page - 1) * PageSize]
    requires NeverThrottled(script)
    ensures var l := Walk(v, dir, script, page, acc);
      && PrefixListing(l, dir)
      && l.sleeps == []
      && (l.end == EndOfData || l.end == FetchError)
      && ErrorKeepsPages(l, dir, page)
  {
    UnthrottledPrefix(v, dir, script, page, acc);
    UnthrottledEnd(v, dir, script, page, acc);
    UnthrottledError(v, dir, script, page, acc);
  }

  /** A listing started at page `page` that ends on an error returns exactly
      the users of the pages before the page whose call failed, that is, the
      last page it asked for. */
  predicate ErrorKeepsPages(l: Listing, dir: seq<User>, page: nat)
  {
    l.end == FetchError ==>
      && 2 <= page + |l.requests|
      && (page + |l.requests| - 2) * PageSize <= |dir|
      && l.users == dir[..(page + |l.requests| - 2) * PageSize]
  }

  lemma {:induction false} UnthrottledError(v: Variant, dir: seq<User>, script: seq<Signal>, page: nat, acc: seq<User>)
    requires 1 <= page && (page - 1) * PageSize <= |dir|
    requires acc == dir[..(page - 1) * PageSize]
    requires NeverThrottled(script)
    ensures ErrorKeepsPages(Walk(v, dir, script, page, acc), dir, page)
    decreases |dir| - (page - 1) * PageSize
  {
    var p := PageOf(dir, page);
    assert SignalAt(script, 0) != Throttled;
    if SignalAt(script, 0) == Served && |p| == PageSize {
      AppendPage(dir, page, acc);
      assert NeverThrottled(Drop(script, 1));
      UnthrottledError(v, dir, Drop(script, 1), page + 1, acc + p);
    }
  }

  lemma {:induction false} UnthrottledPrefix(v: Variant, dir: seq<User>, script: seq<Signal>, page: nat, acc: seq<User>)
    requires 1 <= page && (page - 1) * PageSize <= |dir|
    requires acc == dir[..(page - 1) * PageSize]
    requires NeverThrottled(script)
    ensures PrefixListing(Walk(v, dir, script, page, acc), dir)
    decreases |dir| - (page - 1) * PageSize
  {
    var p := PageOf(dir, page);
    AppendPage(dir, page, acc);
    PrefixThenPage(dir, page);
    assert SignalAt(script, 0) != Throttled;
    if SignalAt(script, 0) == Served && |p| == PageSize {
      assert NeverThrottled(Drop(script, 1));
      UnthrottledPrefix(v, dir, Drop(script, 1), page + 1, acc + p);
    }
  }

  lemma {:induction false} UnthrottledEnd(v: Variant, dir: seq<User>, script: seq<Signal>, page: nat, acc: seq<User>)
    requires 1 <= page && (page - 1) * PageSize <= |dir|
    requires NeverThrottled(script)
    ensures var l := Walk(v, dir, script, page, acc);
      l.sleeps == [] && (l.end == EndOfData || l.end == FetchError)
    decreases |dir| - (page - 1) * PageSize
  {
    var p := PageOf(dir, page);
    assert SignalAt(script, 0) != Throttled;
    if SignalAt(script, 0) == Served && |p| == PageSize {
      assert NeverThrottled(Drop(script, 1));
      UnthrottledEnd(v, dir, Drop(script, 1), page + 1, acc + p);
    }
  }

  lemma UnthrottledListing(dir: seq<User>, script: seq<Signal>)
    requires NeverThrottled(script)
    ensures var l := ListAllUsers(dir, script);
      && |l.users| <= |dir|
      && l.users == dir[..|l.users|]
      && l.sleeps == []
      && (l.end == EndOfData || l.end == FetchError)
      && (l.end == EndOfData ==> l.users == dir)
      && (l.end == FetchError ==>
            (|l.requests| - 1) * PageSize <= |dir| && l.users == dir[..(|l.requests| - 1) * PageSize])
  {
    UnthrottledWalk(AsWritten, dir, script, 1, []);
  }

  /** Where the as-written loop can be: at a page boundary with exactly the
      users before it, or on the last page after having covered the directory. */
  predicate WalkState(dir: seq<User>, page: nat, acc: seq<User>)
    requires 1 <= page && (page - 1) * PageSize <= |dir|
  {
    acc == dir[..(page - 1) * PageSize] || (Covered(acc, dir) && |dir| < page * PageSize)
  }

  lemma AppendPage(dir: seq<User>, page: nat, acc: seq<User>)
    requires 1 <= page && (page - 1) * PageSize <= |dir|
    requires WalkState(dir, page, acc)
    ensures var p := PageOf(dir, page);
      && (|p| < PageSize ==> Covered(acc + p, dir))
      && (|p| == PageSize ==> acc + p == dir[..page * PageSize])
  {
    var p := PageOf(dir, page);
    PrefixThenPage(dir, page);
    if acc != dir[..(page - 1) * PageSize] {
      var lo := (page - 1) * PageSize;
      forall i | |dir| <= i < |acc + p|
        ensures (acc + p)[i] in dir
      {
        if i >= |acc| {
          assert (acc + p)[i] == dir[lo + (i - |acc|)];
        }
      }
      assert (acc + p)[..|dir|] == acc[..|dir|];
    }
  }

  /** The listing as written returns a prefix of the directory, or the whole
      directory followed by repeats of its last page; when it reaches the end
      of the data it has covered every user. */
  lemma {:induction false} WalkEchoes(dir: seq<User>, script: seq<Signal>, page: nat, acc: seq<User>)
    requires 1 <= page && (page - 1) * PageSize <= |dir|
    requires WalkState(dir, page, acc)
    ensures var l := Walk(AsWritten, dir, script, page, acc);
      EchoOf(l.users, dir) && (l.end == EndOfData ==> Covered(l.users, dir))
    decreases |script|, |dir| - (page - 1) * PageSize, 1
  {
    var p := PageOf(dir, page);
    AppendPage(dir, page, acc);
    match SignalAt(script, 0)
    case Served =>
      if |p| == PageSize {
        WalkEchoes(dir, Drop(script, 1), page + 1, acc + p);
      }
    case Failed =>
    case Throttled =>
      ThrottleEchoes(dir, script, page, acc);
  }

  lemma {:induction false} ThrottleEchoes(dir: seq<User>, script: seq<Signal>, page: nat, acc: seq<User>)
    requires 1 <= page && (page - 1) * PageSize <= |dir|
    requires WalkState(dir, page, acc)
    requires SignalAt(script, 0) == Throttled
    ensures var l := Throttle(AsWritten, dir, script, page, acc);
      EchoOf(l.users, dir) && (l.end == EndOfData ==> Covered(l.users, dir))
    decreases |script|, |dir| - (page - 1) * PageSize, 0
  {
    var p := PageOf(dir, page);
    var rest := Drop(script, 1);
    var b := Backoff.RetryBurst(ListVerdicts(rest));
    AppendPage(dir, page, acc);
    if b.stop.Answered? {
      var next := if |p| < PageSize then page else page + 1;
      WalkEchoes(dir, Drop(rest, |b.sleeps|), next, acc + p);
    }
  }

  /** The listing as written returns a prefix of the directory or covers it,
      and covers it at the end of the data. When it stops on an error or
      after spending its retries, it returns what it had gathered before the
      page it was asking for: the pages before it, or, back on the last page,
      the whole directory and its repeats. */
  lemma ListingEchoes(dir: seq<User>, script: seq<Signal>)
    ensures var l := ListAllUsers(dir, script);
      && EchoOf(l.users, dir)
      && (l.end == EndOfData ==> Covered(l.users, dir))
      && ((l.end == FetchError || l.end == RetriesSpent) ==>
            && 1 <= LastPage(l) && (LastPage(l) - 1) * PageSize <= |dir|
            && WalkState(dir, LastPage(l), l.users))
  {
    WalkEchoes(dir, script, 1, []);
    WalkStops(AsWritten, dir, script, 1, []);
  }

  /** The listing returned a prefix of the directory, each user at most
      once and in page order, and all of it if it reached the end of data. */
  predicate PrefixListing(l: Listing, dir: seq<User>)
  {
    && |l.users| <= |dir|
    && l.users == dir[..|l.users|]
    && (l.end == EndOfData ==> l.users == dir)
  }

  /** With the fix, every listing is a prefix of the directory, each user at
      most once and in page order, and the whole directory when the listing
      reaches the end of the data. */
  lemma {:induction false} FixedWalkPrefix(dir: seq<User>, script: seq<Signal>, page: nat, acc: seq<User>)
    requires 1 <= page && (page - 1) * PageSize <= |dir|
    requires acc == dir[..(page - 1) * PageSize]
    ensures PrefixListing(Walk(Corrected, dir, script, page, acc), dir)
    decreases |script|, |dir| - (page - 1) * PageSize, 1
  {
    var p := PageOf(dir, page);
    AppendPage(dir, page, acc);
    PrefixThenPage(dir, page);
    match SignalAt(script, 0)
    case Served =>
      if |p| == PageSize {
        FixedWalkPrefix(dir, Drop(script, 1), page + 1, acc + p);
      }
    case Failed =>
    case Throttled =>
      FixedThrottlePrefix(dir, script, page, acc);
  }

  lemma {:induction false} FixedThrottlePrefix(dir: seq<User>, script: seq<Signal>, page: nat, acc: seq<User>)
    requires 1 <= page && (page - 1) * PageSize <= |dir|
    requires acc == dir[..(page - 1) * PageSize]
    requires SignalAt(script, 0) == Throttled
    ensures PrefixListing(Throttle(Corrected, dir, script, page, acc), dir)
    decreases |script|, |dir| - (page - 1) * PageSize, 0
  {
    var p := PageOf(dir, page);
    var rest := Drop(script, 1);
    var b := Backoff.RetryBurst(ListVerdicts(rest));
    var l := Throttle(Corrected, dir, script, page, acc);
    if !b.stop.Answered? {
      ThrottleGivesUp(Corrected, dir, script, page, acc);
      SamePrefixListing(l, Listing(acc, [], [], FetchError), dir);
    } else if |p| < PageSize {
      PrefixThenPage(dir, page);
      ThrottleShortFixed(dir, script, page, acc);
      SamePrefixListing(l, Listing(dir, [], [], EndOfData), dir);
    } else {
      var next := Drop(rest, |b.sleeps|);
      assert |next| < |script|;
      AppendPage(dir, page, acc);
      FixedWalkPrefix(dir, next, page + 1, acc + p);
      ThrottleFullPrefix(dir, script, page, acc);
    }
  }

  /** With the fix, a full page served by a retry keeps the listing a prefix
      listing whenever the loop from the next page gives one. */
  lemma ThrottleFullPrefix(dir: seq<User>, script: seq<Signal>, page: nat, acc: seq<User>)
    requires 1 <= page && (page - 1) * PageSize <= |dir|
    requires SignalAt(script, 0) == Throttled
    requires Backoff.RetryBurst(ListVerdicts(Drop(script, 1))).stop.Answered?
    requires |PageOf(dir, page)| == PageSize
    requires var b := Backoff.RetryBurst(ListVerdicts(Drop(script, 1)));
      PrefixListing(Walk(Corrected, dir, Drop(Drop(script, 1), |b.sleeps|), page + 1, acc + PageOf(dir, page)), dir)
    ensures PrefixListing(Throttle(Corrected, dir, script, page, acc), dir)
  {
  }

  /** Whether a listing is a prefix listing depends only on its users and
      whether it reached the end of the data. */
  lemma SamePrefixListing(l: Listing, m: Listing, dir: seq<User>)
    requires l.users == m.users && (l.end == EndOfData <==> m.end == EndOfData)
    requires PrefixListing(m, dir)
    ensures PrefixListing(l, dir)
  {
  }

  /** With the fix, a short page served by a retry ends the listing. */
  lemma ThrottleShortFixed(dir: seq<User>, script: seq<Signal>, page: nat, acc: seq<User>)
    requires 1 <= page && (page - 1) * PageSize <= |dir|
    requires SignalAt(script, 0) == Throttled
    requires Backoff.RetryBurst(ListVerdicts(Drop(script, 1))).stop.Answered?
    requires |PageOf(dir, page)| < PageSize
    ensures Throttle(Corrected, dir, script, page, acc).users == acc + PageOf(dir, page)
    ensures Throttle(Corrected, dir, script, page, acc).end == EndOfData
  {
  }

  /** A retry burst that is not answered ends the listing with the users
      gathered before it. */
  lemma ThrottleGivesUp(v: Variant, dir: seq<User>, script: seq<Signal>, page: nat, acc: seq<User>)
    requires 1 <= page && (page - 1) * PageSize <= |dir|
    requires SignalAt(script, 0) == Throttled
    requires !Backoff.RetryBurst(ListVerdicts(Drop(script, 1))).stop.Answered?
    ensures Throttle(v, dir, script, page, acc).users == acc
    ensures Throttle(v, dir, script, page, acc).end != EndOfData
  {
  }

  /** With the fix, every listing is a prefix of the directory, each user at
      most once and in page order: the whole directory at the end of the
      data, and after an error or spent retries exactly the pages before the
      page it was asking for. */
  lemma FixedListingIsPrefix(dir: seq<User>, script: seq<Signal>)
    ensures var l := ListAllUsersFixed(dir, script);
      && |l.users| <= |dir|
      && l.users == dir[..|l.users|]
      && (l.end == EndOfData ==> l.users == dir)
      && ((l.end == FetchError || l.end == RetriesSpent) ==>
            && 1 <= LastPage(l) && (LastPage(l) - 1) * PageSize <= |dir|
            && l.users == dir[..(LastPage(l) - 1) * PageSize])
  {
    FixedWalkPrefix(dir, script, 1, []);
    WalkStops(Corrected, dir, script, 1, []);
  }

  /** The page the listing was asking for when it stopped. */
  function LastPage(l: Listing): nat
    requires |l.requests| >= 1
  {
    l.requests[|l.requests| - 1]
  }

  /** Where the loop of variant `v` can be when it asks for `page`: with the
      fix always at a page boundary holding exactly the users before it; as
      written also back on the last page after having covered the directory. */
  predicate Gathered(v: Variant, dir: seq<User>, page: nat, acc: seq<User>)
    requires 1 <= page && (page - 1) * PageSize <= |dir|
  {
    if v == Corrected then acc == dir[..(page - 1) * PageSize] else WalkState(dir, page, acc)
  }

  /** A listing that stops on an error other than a rate limit, or after its
      seven retries were refused, returns the users gathered before the page
      it was asking for, nothing dropped. */
  predicate StopKeepsGathered(v: Variant, l: Listing, dir: seq<User>)
  {
    (l.end == FetchError || l.end == RetriesSpent) ==>
      && |l.requests| >= 1
      && 1 <= LastPage(l) && (LastPage(l) - 1) * PageSize <= |dir|
      && Gathered(v, dir, LastPage(l), l.users)
  }

  /** From any state the loop can reach, a listing that stops on an error or
      after spending its retries keeps the users gathered so far. */
  lemma {:induction false} WalkStops(v: Variant, dir: seq<User>, script: seq<Signal>, page: nat, acc: seq<User>)
    requires 1 <= page && (page - 1) * PageSize <= |dir|
    requires Gathered(v, dir, page, acc)
    ensures StopKeepsGathered(v, Walk(v, dir, script, page, acc), dir)
    decreases |script|, |dir| - (page - 1) * PageSize, 1
  {
    var p := PageOf(dir, page);
    match SignalAt(script, 0)
    case Served =>
      if |p| == PageSize {
        NextGathered(v, dir, page, acc);
        var rest := Drop(script, 1);
        WalkStops(v, dir, rest, page + 1, acc + p);
        ServedFullShape(v, dir, script, page, acc);
        StopThrough(v, Walk(v, dir, rest, page + 1, acc + p), Walk(v, dir, script, page, acc), [page], dir);
      } else {
        ServedShortEnds(v, dir, script, page, acc);
      }
    case Failed =>
      FailedStops(v, dir, script, page, acc);
    case Throttled =>
      ThrottleStops(v, dir, script, page, acc);
  }

  /** After a full page the loop is at the next page boundary, holding
      exactly the users before it. */
  lemma NextGathered(v: Variant, dir: seq<User>, page: nat, acc: seq<User>)
    requires 1 <= page && (page - 1) * PageSize <= |dir|
    requires Gathered(v, dir, page, acc)
    requires |PageOf(dir, page)| == PageSize
    ensures page * PageSize <= |dir|
    ensures Gathered(v, dir, page + 1, acc + PageOf(dir, page))
  {
    AppendPage(dir, page, acc);
  }

  /** A short page served at once ends the listing at the end of the data. */
  lemma ServedShortEnds(v: Variant, dir: seq<User>, script: seq<Signal>, page: nat, acc: seq<User>)
    requires 1 <= page && (page - 1) * PageSize <= |dir|
    requires SignalAt(script, 0) == Served && |PageOf(dir, page)| < PageSize
    ensures Walk(v, dir, script, page, acc).end == EndOfData
  {
  }

  /** A list call that fails stops the listing with what it had gathered. */
  lemma FailedStops(v: Variant, dir: seq<User>, script: seq<Signal>, page: nat, acc: seq<User>)
    requires 1 <= page && (page - 1) * PageSize <= |dir|
    requires Gathered(v, dir, page, acc)
    requires SignalAt(script, 0) == Failed
    ensures StopKeepsGathered(v, Walk(v, dir, script, page, acc), dir)
  {
    assert Walk(v, dir, script, page, acc) == Listing(acc, [page], [], FetchError);
  }

  lemma {:induction false} ThrottleStops(v: Variant, dir: seq<User>, script: seq<Signal>, page: nat, acc: seq<User>)
    requires 1 <= page && (page - 1) * PageSize <= |dir|
    requires Gathered(v, dir, page, acc)
    requires SignalAt(script, 0) == Throttled
    ensures StopKeepsGathered(v, Throttle(v, dir, script, page, acc), dir)
    decreases |script|, |dir| - (page - 1) * PageSize, 0
  {
    var p := PageOf(dir, page);
    var rest := Drop(script, 1);
    var b := Backoff.RetryBurst(ListVerdicts(rest));
    if !b.stop.Answered? {
      ThrottleGivesUpStops(v, dir, script, page, acc);
    } else if |p| < PageSize && v == Corrected {
      ThrottleShortFixed(dir, script, page, acc);
    } else {
      var next := Drop(rest, |b.sleeps|);
      var resume := if |p| < PageSize then page else page + 1;
      assert |next| < |script|;
      AppendPage(dir, page, acc);
      WalkStops(v, dir, next, resume, acc + p);
      ThrottleAnsweredShape(v, dir, script, page, acc);
      StopThrough(v, Walk(v, dir, next, resume, acc + p), Throttle(v, dir, script, page, acc),
                  [page] + Repeat(page, |b.sleeps|), dir);
    }
  }

  /** Whether a listing keeps what it gathered depends only on its users,
      its ending and the last page it asked for. */
  lemma StopThrough(v: Variant, l: Listing, m: Listing, tried: seq<nat>, dir: seq<User>)
    requires StopKeepsGathered(v, l, dir)
    requires m.users == l.users && m.end == l.end
    requires |l.requests| >= 1 && m.requests == tried + l.requests
    ensures StopKeepsGathered(v, m, dir)
  {
    assert LastPage(m) == LastPage(l);
  }

  /** A full page served at once is followed by the loop from the next page. */
  lemma ServedFullShape(v: Variant, dir: seq<User>, script: seq<Signal>, page: nat, acc: seq<User>)
    requires 1 <= page && (page - 1) * PageSize <= |dir|
    requires SignalAt(script, 0) == Served && |PageOf(dir, page)| == PageSize
    ensures var l := Walk(v, dir, Drop(script, 1), page + 1, acc + PageOf(dir, page));
      var m := Walk(v, dir, script, page, acc);
      m.users == l.users && m.end == l.end && m.requests == [page] + l.requests
  {
  }

  /** A page served by a retry is followed by the loop from the next page,
      or, as written after a short page, from the same page again. */
  lemma ThrottleAnsweredShape(v: Variant, dir: seq<User>, script: seq<Signal>, page: nat, acc: seq<User>)
    requires 1 <= page && (page - 1) * PageSize <= |dir|
    requires SignalAt(script, 0) == Throttled
    requires Backoff.RetryBurst(ListVerdicts(Drop(script, 1))).stop.Answered?
    requires |PageOf(dir, page)| == PageSize || v == AsWritten
    ensures var b := Backoff.RetryBurst(ListVerdicts(Drop(script, 1)));
      var resume := if |PageOf(dir, page)| < PageSize then page else page + 1;
      var l := Walk(v, dir, Drop(Drop(script, 1), |b.sleeps|), resume, acc + PageOf(dir, page));
      var m := Throttle(v, dir, script, page, acc);
      m.users == l.users && m.end == l.end && m.requests == [page] + Repeat(page, |b.sleeps|) + l.requests
  {
  }

  /** A burst that is not answered stops at the page it was retrying. */
  lemma ThrottleGivesUpStops(v: Variant, dir: seq<User>, script: seq<Signal>, page: nat, acc: seq<User>)
    requires 1 <= page && (page - 1) * PageSize <= |dir|
    requires Gathered(v, dir, page, acc)
    requires SignalAt(script, 0) == Throttled
    requires !Backoff.RetryBurst(ListVerdicts(Drop(script, 1))).stop.Answered?
    ensures StopKeepsGathered(v, Throttle(v, dir, script, page, acc), dir)
  {
    var b := Backoff.RetryBurst(ListVerdicts(Drop(script, 1)));
    var tried := [page] + Repeat(page, |b.sleeps|);
    assert tried[|tried| - 1] == page;
  }

  /** A directory smaller than one page, and a first list call that is
      rate-limited: the retry is served the whole directory, the code as
      written lists it again and returns every user twice; the fix returns
      each user once. */
  lemma ThrottledShortListingRepeats(dir: seq<User>)
    requires |dir| < PageSize
    ensures ListAllUsers(dir, [Throttled]).users == dir + dir
    ensures ListAllUsersFixed(dir, [Throttled]).users == dir
  {
    var verdict := ListVerdicts([]);
    assert verdict(0) == Backoff.Answer(());
    Backoff.RetryStopsAtFirstNonRefusal(verdict, 0, Backoff.InitialBackoff);
    var b := Backoff.RetryBurst(verdict);
    assert |b.sleeps| == 1 && b.stop.Answered?;
    assert PageOf(dir, 1) == dir;
    assert Drop([Throttled], 1) == [];
    assert Drop([], 1) == [];
    assert [] + dir == dir;
    assert Walk(AsWritten, dir, [], 1, dir).users == dir + dir;
    assert Throttle(AsWritten, dir, [Throttled], 1, []).users == dir + dir;
    assert Throttle(Corrected, dir, [Throttled], 1, []).users == dir;
  }

  /** Eight rate limits in a row (the call and its seven retries): the
      listing sleeps 2, 4, ..., 128 and returns what it had gathered. */
  lemma GiveUpKeepsAccumulated(v: Variant, dir: seq<User>, script: seq<Signal>, page: nat, acc: seq<User>)
    requires 1 <= page && (page - 1) * PageSize <= |dir|
    requires |script| >= 8 && forall i :: 0 <= i < 8 ==> script[i] == Throttled
    ensures Walk(v, dir, script, page, acc)
         == Listing(acc, Repeat(page, 8), [2, 4, 8, 16, 32, 64, 128], RetriesSpent)
  {
    var rest := Drop(script, 1);
    assert forall k :: 0 <= k < Backoff.MaxRetries ==> ListVerdicts(rest)(k).Again? by {
      forall k | 0 <= k < Backoff.MaxRetries
        ensures ListVerdicts(rest)(k).Again?
      {
        assert SignalAt(rest, k) == script[k + 1];
      }
    }
    Backoff.AllRefusedExhausts(ListVerdicts(rest));
    assert Repeat(page, 8) == [page] + Repeat(page, 7);
  }
}

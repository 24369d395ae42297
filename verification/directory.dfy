/** `get_all_users`: the paginated listing of every user of the account.
    The listing endpoint is not called; instead the model is given the
    directory it would page through and a script of disturbances, one per
    list call in call order: the call is served, rate-limited, or fails with
    some other error. Once the script is used up every further call is served.
 */
module Directory {
  import Backoff

  const PageSize: nat := 1000

  /** A user of the account: its id and its e-mail address. */
  datatype User = User(id: int, email: string)

  /** What one list call did. */
  datatype Signal = Served | Throttled | Failed

  /** Why the listing stopped: a short page was served, a call failed with
      an error other than a rate limit, a retry burst used all seven retries,
      the doubled delay passed the 300 cap, or a retry call raised an error
      the retry loop does not catch, so that it leaves `get_all_users`. */
  datatype Ending = EndOfData | FetchError | RetriesSpent | CapReached | Uncaught

  /** The users returned, the page number of every list call made, the
      sleeps performed, and why the listing stopped. */
  datatype Listing = Listing(users: seq<User>, requests: seq<nat>, sleeps: seq<nat>, end: Ending)

  /** The code as written, or with the listing stopping after a short page
      served by a retry. */
  datatype Variant = AsWritten | Corrected

  /** Page `page` (counting from 1) as the endpoint serves it: the next
      `PageSize` users, or fewer at the end of the directory. */
  function PageOf(dir: seq<User>, page: nat): (p: seq<User>)
    requires 1 <= page && (page - 1) * PageSize <= |dir|
    ensures |p| <= PageSize
    ensures (page - 1) * PageSize + |p| <= |dir|
    ensures p == dir[(page - 1) * PageSize .. (page - 1) * PageSize + |p|]
    ensures |p| < PageSize <==> |dir| < page * PageSize
    ensures |p| < PageSize ==> (page - 1) * PageSize + |p| == |dir|
  {
    var lo := (page - 1) * PageSize;
    if |dir| - lo < PageSize then dir[lo..] else dir[lo..lo + PageSize]
  }

  /** The fate of list call `k` of the script; calls past its end are served. */
  function SignalAt(script: seq<Signal>, k: nat): Signal
  {
    if k < |script| then script[k] else Served
  }

  /** The script left after `n` more list calls. */
  function Drop(script: seq<Signal>, n: nat): (rest: seq<Signal>)
    ensures |rest| == if n <= |script| then |script| - n else 0
    ensures forall k :: 0 <= k < |rest| ==> rest[k] == script[n + k]
  {
    if n <= |script| then script[n..] else []
  }

  /** How the retry loop of `get_all_users` sees one retry call: only the
      rate limit is caught inside the loop. */
  function ListVerdict(s: Signal): Backoff.Verdict<()>
  {
    match s
    case Served => Backoff.Answer(())
    case Throttled => Backoff.Again
    case Failed => Backoff.Raise
  }

  /** The fates of the retry calls, as the retry loop sees them, when the
      script after the rate-limited call is `rest`. */
  function ListVerdicts(rest: seq<Signal>): nat -> Backoff.Verdict<()>
  {
    (k: nat) => ListVerdict(SignalAt(rest, k))
  }

  function Repeat(page: nat, n: nat): (r: seq<nat>)
    ensures |r| == n && forall i :: 0 <= i < n ==> r[i] == page
  {
    if n == 0 then [] else [page] + Repeat(page, n - 1)
  }

  /** The `while True` loop of `get_all_users` from page `page`, with `acc`
      the users gathered so far. */
  function Walk(v: Variant, dir: seq<User>, script: seq<Signal>, page: nat, acc: seq<User>): (l: Listing)
    requires 1 <= page && (page - 1) * PageSize <= |dir|
    ensures !l.end.CapReached?
    ensures |l.requests| >= 1 && l.requests[0] == page
    decreases |script|, |dir| - (page - 1) * PageSize, 1
  {
    var p := PageOf(dir, page);
    match SignalAt(script, 0)
    case Served =>
      if |p| < PageSize then Listing(acc + p, [page], [], EndOfData)
      else
        var l := Walk(v, dir, Drop(script, 1), page + 1, acc + p);
        Listing(l.users, [page] + l.requests, l.sleeps, l.end)
    case Failed => Listing(acc, [page], [], FetchError)
    case Throttled => Throttle(v, dir, script, page, acc)
  }

  /** The rate-limit handler of `get_all_users`, entered when the list call
      for `page` (the first call of `script`) was rate-limited. A retry that
      is served a short page breaks only out of the retry loop, so the code
      as written goes round the `while` loop again, asks for the same page
      and appends it a second time. */
  function Throttle(v: Variant, dir: seq<User>, script: seq<Signal>, page: nat, acc: seq<User>): (l: Listing)
    requires 1 <= page && (page - 1) * PageSize <= |dir|
    requires SignalAt(script, 0) == Throttled
    ensures !l.end.CapReached?
    ensures |l.requests| >= 1 && l.requests[0] == page
    decreases |script|, |dir| - (page - 1) * PageSize, 0
  {
    var p := PageOf(dir, page);
    var last := |p| < PageSize;
    var rest := Drop(script, 1);
    var b := Backoff.RetryBurst(ListVerdicts(rest));
    var tried := [page] + Repeat(page, |b.sleeps|);
    match b.stop
    case Answered(_, _) =>
      if last && v == Corrected then Listing(acc + p, tried, b.sleeps, EndOfData)
      else
        var l := Walk(v, dir, Drop(rest, |b.sleeps|), if last then page else page + 1, acc + p);
        Listing(l.users, tried + l.requests, b.sleeps + l.sleeps, l.end)
    case Raised(_) => Listing(acc, tried, b.sleeps, Uncaught)
    case Exhausted => Listing(acc, tried, b.sleeps, RetriesSpent)
    case Capped => Listing(acc, tried, b.sleeps, CapReached)
  }

  /** `get_all_users()` as written. */
  function ListAllUsers(dir: seq<User>, script: seq<Signal>): (l: Listing)
    ensures !l.end.CapReached?
    ensures |l.requests| >= 1 && l.requests[0] == 1
  {
    Walk(AsWritten, dir, script, 1, [])
  }

  /** `get_all_users()` with the short page after a retry ending the listing. */
  function ListAllUsersFixed(dir: seq<User>, script: seq<Signal>): (l: Listing)
    ensures !l.end.CapReached?
    ensures |l.requests| >= 1 && l.requests[0] == 1
  {
    Walk(Corrected, dir, script, 1, [])
  }
}

/**
 The Telegram long-polling loop: an offset that confirms what was received, an exponential back-off,
 and the exactly-once delivery the two give together with the server.
 */
module Polling {

  datatype Update = Update(updateId: int, payload: string)

  /** Seconds. */
  const BACKOFF_BASE: nat := 2
  const BACKOFF_MAX: nat := 60

  /** The server hands out at most this many updates at a time. */
  const MAX_BATCH: nat := 100

  /** What one turn of the loop meets. */
  datatype Poll =
    | Failed
    | FailedThenCancelled
    | Answered(updates: seq<Update>)

  /** `dispatched` is everything handed to the handler, in order. */
  datatype Client = Client(offset: int, backoff: nat, dispatched: seq<Update>)

  const START := Client(0, BACKOFF_BASE, [])

  function MinDuration(a: nat, b: nat): nat {
    if a < b then a else b
  }

  function Received(c: Client, updates: seq<Update>): Client {
    Client(if updates == [] then c.offset else updates[|updates| - 1].updateId + 1,
           BACKOFF_BASE, c.dispatched + updates)
  }

  function AfterPoll(c: Client, p: Poll): Client {
    match p
    case Failed => c.(backoff := MinDuration(c.backoff * 2, BACKOFF_MAX))
    case FailedThenCancelled => c
    case Answered(updates) => Received(c, updates)
  }

  /** The loop over what the polls meet, until it is cancelled. */
  function AfterPolls(c: Client, polls: seq<Poll>): Client
    decreases |polls|
  {
    if polls == [] then c
    else if polls[0].FailedThenCancelled? then AfterPoll(c, polls[0])
    else AfterPolls(AfterPoll(c, polls[0]), polls[1..])
  }

  class Poller {
    var offset: int
    var backoff: nat
    var dispatched: seq<Update>

    function Now(): Client
      reads this
    {
      Client(offset, backoff, dispatched)
    }

    constructor ()
      ensures Now() == START
    {
      offset, backoff, dispatched := 0, BACKOFF_BASE, [];
    }

    /** `Run`, cancelled when the list of polls ends. */
    method Run(polls: seq<Poll>)
      modifies this
      ensures Now() == AfterPolls(old(Now()), polls)
    {
      var i := 0;
      while i < |polls|
        invariant i <= |polls|
        invariant AfterPolls(Now(), polls[i..]) == AfterPolls(old(Now()), polls)
      {
        assert polls[i..][0] == polls[i] && polls[i..][1..] == polls[i + 1..];
        match polls[i] {
          case FailedThenCancelled => return;
          case Failed => backoff := MinDuration(backoff * 2, BACKOFF_MAX);
          case Answered(updates) => Receive(updates);
        }
        i := i + 1;
      }
    }

    method Receive(updates: seq<Update>)
      modifies this
      ensures Now() == Received(old(Now()), updates)
      ensures backoff == 2 && dispatched == old(dispatched) + updates
      ensures offset == if updates == [] then old(offset) else updates[|updates| - 1].updateId + 1
    {
      backoff := BACKOFF_BASE;
      for k := 0 to |updates|
        invariant offset == if k == 0 then old(offset) else updates[k - 1].updateId + 1
        invariant backoff == BACKOFF_BASE && dispatched == old(dispatched) + updates[..k]
      {
        offset := updates[k].updateId + 1;
        dispatched := dispatched + [updates[k]];
      }
      assert updates[..|updates|] == updates;
    }
  }

  // ------------------------------------------------------------------ back-off

  function PowerOfTwo(k: nat): nat {
    if k == 0 then 1 else 2 * PowerOfTwo(k - 1)
  }

  function Failures(k: nat): seq<Poll> {
    if k == 0 then [] else [Failed] + Failures(k - 1)
  }

  /** The wait grows 2, 4, 8, 16, 32 seconds and then stays at 60, until a poll succeeds. */
  lemma {:induction false} BackoffAfterFailures(c: Client, j: nat, k: nat)
    requires c.backoff == MinDuration(2 * PowerOfTwo(j), BACKOFF_MAX)
    ensures AfterPolls(c, Failures(k)) == c.(backoff := MinDuration(2 * PowerOfTwo(j + k), BACKOFF_MAX))
    decreases k
  {
    if k > 0 {
      assert Failures(k)[1..] == Failures(k - 1);
      assert PowerOfTwo(j + 1) == 2 * PowerOfTwo(j);
      BackoffAfterFailures(AfterPoll(c, Failed), j + 1, k - 1);
    }
  }

  predicate Uncancelled(polls: seq<Poll>) {
    forall i :: 0 <= i < |polls| ==> !polls[i].FailedThenCancelled?
  }

  lemma {:induction false} AfterMorePolls(c: Client, polls: seq<Poll>, more: seq<Poll>)
    requires Uncancelled(polls)
    ensures AfterPolls(c, polls + more) == AfterPolls(AfterPolls(c, polls), more)
    decreases |polls|
  {
    hide AfterPoll;
    if polls == [] {
      assert polls + more == more;
    } else {
      assert (polls + more)[1..] == polls[1..] + more;
      AfterMorePolls(AfterPoll(c, polls[0]), polls[1..], more);
    }
  }

  /**
   Whatever came before, a successful poll, even an empty one, sets the wait back to 2 seconds, and the failures
   that follow it double it up to 60.
   */
  lemma SuccessResetsBackoff(c: Client, polls: seq<Poll>, updates: seq<Update>, k: nat)
    requires Uncancelled(polls)
    ensures var d := AfterPolls(c, polls + [Answered(updates)] + Failures(k));
            && d.backoff == (if 2 * PowerOfTwo(k) < 60 then 2 * PowerOfTwo(k) else 60)
            && d.dispatched == AfterPolls(c, polls).dispatched + updates
  {
    var before := AfterPolls(c, polls);
    AfterMorePolls(c, polls, [Answered(updates)]);
    assert [Answered(updates)][1..] == [];
    assert AfterPolls(before, [Answered(updates)]) == Received(before, updates);
    AfterMorePolls(c, polls + [Answered(updates)], Failures(k));
    assert PowerOfTwo(0) == 1;
    BackoffAfterFailures(Received(before, updates), 0, k);
  }

  lemma {:induction false} BackoffStaysBounded(c: Client, polls: seq<Poll>)
    requires BACKOFF_BASE <= c.backoff <= BACKOFF_MAX
    ensures BACKOFF_BASE <= AfterPolls(c, polls).backoff <= BACKOFF_MAX
    decreases |polls|
  {
    if polls != [] && !polls[0].FailedThenCancelled? {
      BackoffStaysBounded(AfterPoll(c, polls[0]), polls[1..]);
    }
  }

  // -------------------------------------------------------------- the protocol

  /** Updates reach the server with growing, non-negative IDs. */
  datatype World = World(updates: seq<Update>, client: Client)

  datatype Event =
    | Arrive(update: Update)
    | PollFails
    | PollSucceeds(count: nat)

  predicate Ascending(us: seq<Update>) {
    && (forall i :: 0 <= i < |us| ==> us[i].updateId >= 0)
    && forall i, j :: 0 <= i < j < |us| ==> us[i].updateId < us[j].updateId
  }

  /** How many updates lie below an offset. */
  function Below(us: seq<Update>, offset: int): (n: nat)
    ensures n <= |us|
  {
    if us == [] || us[0].updateId >= offset then 0 else 1 + Below(us[1..], offset)
  }

  /** What the server still has to hand out. */
  function Pending(w: World): seq<Update> {
    w.updates[Below(w.updates, w.client.offset)..]
  }

  predicate Possible(w: World, e: Event) {
    match e
    case Arrive(u) => Ascending(w.updates + [u])
    case PollFails => true
    case PollSucceeds(n) => n <= |Pending(w)| && n <= MAX_BATCH
  }

  function Next(w: World, e: Event): World
    requires Possible(w, e)
  {
    match e
    case Arrive(u) => w.(updates := w.updates + [u])
    case PollFails => w.(client := AfterPoll(w.client, Failed))
    case PollSucceeds(n) => w.(client := AfterPoll(w.client, Answered(Pending(w)[..n])))
  }

  predicate Run(w: World, es: seq<Event>)
    decreases |es|
  {
    es == [] || (Possible(w, es[0]) && Run(Next(w, es[0]), es[1..]))
  }

  function After(w: World, es: seq<Event>): World
    requires Run(w, es)
    decreases |es|
  {
    if es == [] then w else After(Next(w, es[0]), es[1..])
  }

  /** Dispatched so far: exactly the server's updates below the offset, in order. */
  predicate ExactlyOnce(w: World) {
    && Ascending(w.updates)
    && w.client.dispatched == w.updates[..Below(w.updates, w.client.offset)]
    && w.client.offset <= (if w.updates == [] then 0 else w.updates[|w.updates| - 1].updateId + 1)
    && BACKOFF_BASE <= w.client.backoff <= BACKOFF_MAX
  }

  lemma {:induction false} BelowIs(us: seq<Update>, offset: int, n: nat)
    requires Ascending(us) && n <= |us|
    requires n > 0 ==> us[n - 1].updateId < offset
    requires n < |us| ==> offset <= us[n].updateId
    ensures Below(us, offset) == n
  {
    if n > 0 {
      BelowIs(us[1..], offset, n - 1);
    }
  }

  lemma {:induction false} BelowSplits(us: seq<Update>, offset: int)
    requires Ascending(us)
    ensures var n := Below(us, offset);
            && (n > 0 ==> us[n - 1].updateId < offset)
            && (n < |us| ==> offset <= us[n].updateId)
  {
    if us != [] && us[0].updateId < offset {
      BelowSplits(us[1..], offset);
    }
  }

  /** A successful poll moves exactly the updates it returns from pending to dispatched. */
  lemma PollAdvances(w: World, k: nat)
    requires ExactlyOnce(w) && k <= |Pending(w)|
    ensures var c := Received(w.client, Pending(w)[..k]);
            && Below(w.updates, c.offset) == Below(w.updates, w.client.offset) + k
            && c.dispatched == w.updates[..Below(w.updates, c.offset)]
            && c.offset <= (if w.updates == [] then 0 else w.updates[|w.updates| - 1].updateId + 1)
  {
    hide Below;
    var n := Below(w.updates, w.client.offset);
    var batch := Pending(w)[..k];
    BelowSplits(w.updates, w.client.offset);
    assert w.updates[..n] + batch == w.updates[..n + k];
    assert k > 0 ==> batch[k - 1] == w.updates[n + k - 1];
    BelowIs(w.updates, Received(w.client, batch).offset, n + k);
  }

  lemma ArrivalKeeps(us: seq<Update>, u: Update, offset: int)
    requires Ascending(us + [u]) && offset <= (if us == [] then 0 else us[|us| - 1].updateId + 1)
    ensures Ascending(us) && Below(us + [u], offset) == Below(us, offset)
  {
    hide Below;
    var vs := us + [u];
    assert forall i :: 0 <= i < |us| ==> us[i] == vs[i];
    assert vs[|us|] == u;
    BelowSplits(us, offset);
    BelowIs(vs, offset, Below(us, offset));
  }

  lemma ExactlyOnceAfter(w: World, e: Event)
    requires ExactlyOnce(w) && Possible(w, e)
    ensures ExactlyOnce(Next(w, e))
  {
    hide Below, Ascending;
    match e
    case Arrive(u) =>
      ArrivalKeeps(w.updates, u, w.client.offset);
      LastGrows(w.updates, u);
    case PollFails =>
    case PollSucceeds(k) => PollAdvances(w, k);
  }

  lemma LastGrows(us: seq<Update>, u: Update)
    requires Ascending(us + [u])
    ensures u.updateId >= 0 && (us != [] ==> us[|us| - 1].updateId < u.updateId)
  {
    var vs := us + [u];
    assert vs[|us|] == u && forall i :: 0 <= i < |us| ==> us[i] == vs[i];
  }

  /**
   Over any interleaving of arrivals, failed polls and successful polls, what has been dispatched is
   exactly the server's updates with an ID below the offset, in order, none twice and none missing;
   and the back-off stays between 2 and 60 seconds.
   */
  lemma {:induction false} AlwaysExactlyOnce(w: World, es: seq<Event>)
    requires ExactlyOnce(w) && Run(w, es)
    ensures ExactlyOnce(After(w, es))
    decreases |es|
  {
    hide ExactlyOnce, Possible, Next;
    if es != [] {
      ExactlyOnceAfter(w, es[0]);
      AlwaysExactlyOnce(Next(w, es[0]), es[1..]);
    }
  }

  lemma StartIsExactlyOnce(us: seq<Update>)
    requires Ascending(us)
    ensures ExactlyOnce(World(us, START))
  {
    BelowIs(us, 0, 0);
  }

  /** A poll that the server answers as fully as it may. */
  function FullPoll(w: World): Event {
    PollSucceeds(if |Pending(w)| < MAX_BATCH then |Pending(w)| else MAX_BATCH)
  }

  function AfterFullPolls(w: World, k: nat): World
    decreases k
  {
    if k == 0 then w else AfterFullPolls(Next(w, FullPoll(w)), k - 1)
  }

  /** While nothing new arrives, as many full polls as there are hundreds pending deliver everything. */
  lemma {:induction false} FullPollsDeliverEverything(w: World, k: nat)
    requires ExactlyOnce(w) && |Pending(w)| <= k * MAX_BATCH
    ensures AfterFullPolls(w, k).client.dispatched == w.updates
    decreases k
  {
    hide Below, Ascending;
    if k == 0 {
      assert w.updates[..|w.updates|] == w.updates;
    } else {
      ExactlyOnceAfter(w, FullPoll(w));
      PollAdvances(w, FullPoll(w).count);
      FullPollsDeliverEverything(Next(w, FullPoll(w)), k - 1);
    }
  }
}

/**
 * Stage 1: paging through user.getrecenttracks with a bounded retry loop.
 *
 * The HTTP transport is a scripted server, a function from (page, attempt)
 * to the status code of that response; totalPages is what page 1's body
 * reported. What the script does is kept as a trace of events, in order:
 * the requests it issues, the waits it sleeps and the page files it writes.
 */
module Fetch {
  import opened Text

  const StatusOk := 200
  const MaxAttempts := 6
  const BackoffStep := 30

  /** The server-side 5xx statuses the script retries (section 15.6 of RFC 9110). */
  predicate IsTransient(status: int) {
    status == 500 || status == 502 || status == 503 || status == 504
  }

  type Server = (nat, nat) -> int

  datatype Event = Request(page: nat, attempt: nat) | Wait(seconds: nat) | Write(page: nat)
  datatype Outcome = Completed | Aborted(page: nat, status: int)
  datatype Run = Run(trace: seq<Event>, outcome: Outcome)

  function Join(prefix: seq<Event>, r: Run): Run {
    Run(prefix + r.trace, r.outcome)
  }

  function StatusOf(server: Server, e: Event): int
    requires e.Request?
  {
    server(e.page, e.attempt)
  }

  /** A request answered by a transient status before the last allowed attempt: it is retried. */
  predicate Retried(server: Server, e: Event)
    requires e.Request?
  {
    IsTransient(StatusOf(server, e)) && e.attempt < MaxAttempts
  }

  /** A request that ends the run: neither 200 nor retried. */
  predicate Fatal(server: Server, e: Event)
    requires e.Request?
  {
    StatusOf(server, e) != StatusOk && !Retried(server, e)
  }

  // ------------------------------------------------------- specification

  /** The retry loop for page p after `done` attempts, each followed by its wait. */
  function Attempts(server: Server, p: nat, done: nat): Run
    requires done < MaxAttempts
    decreases MaxAttempts - done
  {
    var e := Request(p, done + 1);
    if StatusOf(server, e) == StatusOk then Run([e], Completed)
    else if Retried(server, e) then Join([e, Wait(BackoffStep * e.attempt)], Attempts(server, p, done + 1))
    else Run([e], Aborted(p, StatusOf(server, e)))
  }

  /** One page from its first attempt: the retry loop, then the page file on success. */
  function PageRun(server: Server, p: nat): Run {
    var r := Attempts(server, p, 0);
    if r.outcome.Completed? then Run(r.trace + [Write(p)], Completed) else r
  }

  /** Pages p..total in order, stopping at the first page that fails. */
  function Pages(server: Server, p: nat, total: int): Run
    decreases total - p + 1
  {
    if p > total then Run([], Completed)
    else
      var r := PageRun(server, p);
      if r.outcome.Aborted? then r else Join(r.trace, Pages(server, p + 1, total))
  }

  /** The whole run: page 1 once, without retry, then pages 2..totalPages. */
  function FetchAll(server: Server, totalPages: int): Run {
    var status := server(1, 1);
    if status != StatusOk then Run([Request(1, 1)], Aborted(1, status))
    else Join([Request(1, 1), Write(1)], Pages(server, 2, totalPages))
  }

  /** What remains of the run in the retry loop of page p after `done` attempts. */
  function Resume(server: Server, p: nat, done: nat, total: int): Run
    requires done < MaxAttempts
  {
    var r := Attempts(server, p, done);
    if r.outcome.Aborted? then r else Join(r.trace + [Write(p)], Pages(server, p + 1, total))
  }

  // -------------------------------------------------------------- method

  /** The paging loop and the retry loop of the fetch script. */
  method Fetch(server: Server, totalPages: int) returns (trace: seq<Event>, outcome: Outcome)
    ensures Run(trace, outcome) == FetchAll(server, totalPages)
  {
    trace := [Request(1, 1)];
    var status := server(1, 1);
    if status != StatusOk {
      outcome := Aborted(1, status);
      return;
    }
    trace := trace + [Write(1)];
    var page := 2;
    while page <= totalPages
      invariant 2 <= page
      invariant FetchAll(server, totalPages) == Join(trace, Pages(server, page, totalPages))
      decreases totalPages - page
    {
      var attempt := 0;
      ResumeFirst(server, page, totalPages);
      while true
        invariant 0 <= attempt < MaxAttempts
        invariant FetchAll(server, totalPages) == Join(trace, Resume(server, page, attempt, totalPages))
        decreases MaxAttempts - attempt
      {
        ResumeStep(server, page, attempt, totalPages);
        ghost var before := trace;
        attempt := attempt + 1;
        var e := Request(page, attempt);
        trace := trace + [e];
        status := server(page, attempt);
        if status == StatusOk {
          JoinAppend(before, [e, Write(page)], Pages(server, page + 1, totalPages));
          assert before + [e, Write(page)] == trace + [Write(page)];
          break;
        }
        if IsTransient(status) && attempt < MaxAttempts {
          var w := Wait(BackoffStep * attempt);
          JoinAppend(before, [e, w], Resume(server, page, attempt, totalPages));
          trace := trace + [w];
          assert before + [e, w] == trace;
          continue;
        }
        JoinAppend(before, [e], Run([], Aborted(page, status)));
        outcome := Aborted(page, status);
        return;
      }
      trace := trace + [Write(page)];
      page := page + 1;
    }
    outcome := Completed;
  }

  lemma JoinAppend(t: seq<Event>, u: seq<Event>, r: Run)
    ensures Join(t + u, r) == Join(t, Join(u, r))
  {
    assert (t + u) + r.trace == t + (u + r.trace);
  }

  lemma ResumeFirst(server: Server, p: nat, total: int)
    requires p <= total
    ensures Pages(server, p, total) == Resume(server, p, 0, total)
  {
  }

  /** One turn of the retry loop, as the three ways out of it. */
  lemma ResumeStep(server: Server, p: nat, done: nat, total: int)
    requires done < MaxAttempts
    ensures var e, k := Request(p, done + 1), done + 1;
      (server(p, k) == StatusOk ==> Resume(server, p, done, total) == Join([e, Write(p)], Pages(server, p + 1, total)))
      && (server(p, k) != StatusOk && IsTransient(server(p, k)) && k < MaxAttempts ==>
            Resume(server, p, done, total) == Join([e, Wait(BackoffStep * k)], Resume(server, p, k, total)))
      && (server(p, k) != StatusOk && !(IsTransient(server(p, k)) && k < MaxAttempts) ==>
            Resume(server, p, done, total) == Run([e], Aborted(p, server(p, k))))
  {
    var e, k := Request(p, done + 1), done + 1;
    var r := Attempts(server, p, done);
    if server(p, k) == StatusOk {
      assert r == Run([e], Completed);
    } else if IsTransient(server(p, k)) && k < MaxAttempts {
      var w := Wait(BackoffStep * k);
      var rest := Attempts(server, p, k);
      assert r == Join([e, w], rest);
      if !rest.outcome.Aborted? {
        assert ([e, w] + rest.trace) + [Write(p)] == [e, w] + (rest.trace + [Write(p)]);
        JoinAppend([e, w], rest.trace + [Write(p)], Pages(server, p + 1, total));
      }
    } else {
      assert r == Run([e], Aborted(p, server(p, k)));
    }
  }

  // --------------------------------------------------------- projections

  /** The pages written, in order. */
  function WrittenPages(t: seq<Event>): seq<nat> {
    if t == [] then [] else (if t[0].Write? then [t[0].page] else []) + WrittenPages(t[1..])
  }

  /** The waits slept, in seconds, in order. */
  function Waits(t: seq<Event>): seq<nat> {
    if t == [] then [] else (if t[0].Wait? then [t[0].seconds] else []) + Waits(t[1..])
  }

  /** How many requests were issued for page p. */
  function RequestsFor(t: seq<Event>, p: nat): nat {
    if t == [] then 0 else (if t[0].Request? && t[0].page == p then 1 else 0) + RequestsFor(t[1..], p)
  }

  function Sum(s: seq<nat>): nat {
    if s == [] then 0 else s[0] + Sum(s[1..])
  }

  /** lo, lo + 1, ..., hi - 1. */
  function Range(lo: int, hi: int): seq<nat>
    requires 0 <= lo
    decreases hi - lo
  {
    if lo >= hi then [] else [lo as nat] + Range(lo + 1, hi)
  }

  lemma {:induction false} WrittenPagesAppend(a: seq<Event>, b: seq<Event>)
    ensures WrittenPages(a + b) == WrittenPages(a) + WrittenPages(b)
  {
    if a == [] {
      assert a + b == b;
    } else {
      assert (a + b)[0] == a[0] && (a + b)[1..] == a[1..] + b;
      WrittenPagesAppend(a[1..], b);
    }
  }

  lemma {:induction false} WaitsAppend(a: seq<Event>, b: seq<Event>)
    ensures Waits(a + b) == Waits(a) + Waits(b)
  {
    if a == [] {
      assert a + b == b;
    } else {
      assert (a + b)[0] == a[0] && (a + b)[1..] == a[1..] + b;
      WaitsAppend(a[1..], b);
    }
  }

  lemma {:induction false} RequestsForAppend(a: seq<Event>, b: seq<Event>, p: nat)
    ensures RequestsFor(a + b, p) == RequestsFor(a, p) + RequestsFor(b, p)
  {
    if a == [] {
      assert a + b == b;
    } else {
      assert (a + b)[0] == a[0] && (a + b)[1..] == a[1..] + b;
      RequestsForAppend(a[1..], b, p);
    }
  }

  lemma {:induction false} SumAppend(a: seq<nat>, b: seq<nat>)
    ensures Sum(a + b) == Sum(a) + Sum(b)
  {
    if a == [] {
      assert a + b == b;
    } else {
      assert (a + b)[0] == a[0] && (a + b)[1..] == a[1..] + b;
      SumAppend(a[1..], b);
    }
  }

  lemma {:induction false} RangeSplit(lo: int, hi: int)
    requires 0 <= lo < hi
    ensures Range(lo, hi) == Range(lo, hi - 1) + [(hi - 1) as nat]
    decreases hi - lo
  {
    if lo < hi - 1 {
      RangeSplit(lo + 1, hi);
    }
  }

  /** Range is strictly increasing. */
  lemma {:induction false} RangeIncreasing(lo: int, hi: int)
    requires 0 <= lo
    ensures forall i, j :: 0 <= i < j < |Range(lo, hi)| ==> Range(lo, hi)[i] < Range(lo, hi)[j]
    ensures forall i :: 0 <= i < |Range(lo, hi)| ==> Range(lo, hi)[i] == lo + i
    decreases hi - lo
  {
    if lo < hi {
      RangeIncreasing(lo + 1, hi);
    }
  }

  /** Every request of t is for a page in lo..hi. */
  predicate RequestsWithin(t: seq<Event>, lo: int, hi: int) {
    forall i :: 0 <= i < |t| && t[i].Request? ==> lo <= t[i].page <= hi
  }

  /** No page is requested more than n times. */
  ghost predicate AtMostPerPage(t: seq<Event>, n: nat) {
    forall q: nat :: RequestsFor(t, q) <= n
  }

  /** No page below p is requested. */
  predicate NoneBelow(t: seq<Event>, p: nat) {
    forall q: nat :: q < p ==> RequestsFor(t, q) == 0
  }

  // ---------------------------------------------------------------- page 1

  /** A page 1 status other than 200 ends the run after one request: nothing is written. */
  lemma FirstPageRejected(server: Server, totalPages: int)
    requires server(1, 1) != StatusOk
    ensures var r := FetchAll(server, totalPages);
      r.trace == [Request(1, 1)] && r.outcome == Aborted(1, server(1, 1)) && WrittenPages(r.trace) == []
  {
  }

  /**
   * On success page 1 is written right after its one request and before any
   * other request; with totalPages below 2 nothing else happens.
   */
  lemma FirstPageWrittenFirst(server: Server, totalPages: int)
    requires server(1, 1) == StatusOk
    ensures var r := FetchAll(server, totalPages);
      |r.trace| >= 2 && r.trace[..2] == [Request(1, 1), Write(1)]
      && (totalPages < 2 ==> r == Run([Request(1, 1), Write(1)], Completed))
  {
  }

  // ------------------------------------------------------------ one page

  /** The retry loop only ever requests page p, at most six times, and writes nothing. */
  lemma {:induction false} AttemptsShape(server: Server, p: nat, done: nat)
    requires done < MaxAttempts
    ensures AttemptsShaped(Attempts(server, p, done), p, done)
    decreases MaxAttempts - done
  {
    var e := Request(p, done + 1);
    if StatusOf(server, e) != StatusOk && Retried(server, e) {
      AttemptsShape(server, p, done + 1);
      RetryShape(server, p, done);
    } else if StatusOf(server, e) == StatusOk {
      assert Attempts(server, p, done) == Run([e], Completed);
      SingleRequestShape(e, Completed, p, done);
    } else {
      assert Attempts(server, p, done) == Run([e], Aborted(p, StatusOf(server, e)));
      SingleRequestShape(e, Aborted(p, StatusOf(server, e)), p, done);
    }
  }

  /**
   * The run of attempts done+1.. for page p starts with a request for attempt
   * done+1, requests nothing but page p and at most MaxAttempts - done times,
   * writes nothing, and can only abort on page p with a status other than 200.
   */
  predicate AttemptsShaped(r: Run, p: nat, done: nat) {
    |r.trace| > 0 && r.trace[0] == Request(p, done + 1)
    && RequestsWithin(r.trace, p, p) && RequestsFor(r.trace, p) <= MaxAttempts - done
    && WrittenPages(r.trace) == []
    && (r.outcome.Aborted? ==> r.outcome.page == p && r.outcome.status != StatusOk)
  }

  lemma RetryShape(server: Server, p: nat, done: nat)
    requires done + 1 < MaxAttempts
    requires StatusOf(server, Request(p, done + 1)) != StatusOk && Retried(server, Request(p, done + 1))
    requires AttemptsShaped(Attempts(server, p, done + 1), p, done + 1)
    ensures AttemptsShaped(Attempts(server, p, done), p, done)
  {
    var e := Request(p, done + 1);
    var w := Wait(BackoffStep * e.attempt);
    var rest := Attempts(server, p, done + 1);
    assert Attempts(server, p, done) == Join([e, w], rest);
    WrittenPagesAppend([e, w], rest.trace);
    RequestsForAppend([e, w], rest.trace, p);
    var t := [e, w] + rest.trace;
    forall i | 0 <= i < |t| && t[i].Request?
      ensures t[i].page == p
    {
      if i >= 2 {
        assert t[i] == rest.trace[i - 2];
      }
    }
  }

  lemma SingleRequestShape(e: Event, o: Outcome, p: nat, done: nat)
    requires done < MaxAttempts && e == Request(p, done + 1)
    requires o.Aborted? ==> o.page == p && o.status != StatusOk
    ensures AttemptsShaped(Run([e], o), p, done)
  {
    assert [e][1..] == [];
  }

  /** A page run touches page p only, and writes it once exactly when it completes. */
  lemma PageRunShape(server: Server, p: nat)
    ensures var r := PageRun(server, p);
      |r.trace| > 0 && r.trace[0] == Request(p, 1)
      && RequestsWithin(r.trace, p, p) && RequestsFor(r.trace, p) <= MaxAttempts
      && WrittenPages(r.trace) == (if r.outcome.Completed? then [p] else [])
      && (r.outcome.Aborted? ==> r.outcome.page == p && r.outcome.status != StatusOk)
  {
    var a := Attempts(server, p, 0);
    AttemptsShape(server, p, 0);
    WrittenPagesAppend(a.trace, [Write(p)]);
    RequestsForAppend(a.trace, [Write(p)], p);
  }

  /** The seconds waited by the retry loop of page p when attempts done+1..k are transient and k+1 is answered 200. */
  lemma {:induction false} TransientWaits(server: Server, p: nat, done: nat, k: nat)
    requires done <= k < MaxAttempts
    requires forall j :: done < j <= k ==> IsTransient(server(p, j))
    requires server(p, k + 1) == StatusOk
    ensures var r := Attempts(server, p, done);
      r.outcome == Completed && Sum(Waits(r.trace)) + 15 * done * (done + 1) == 15 * k * (k + 1)
      && RequestsFor(r.trace, p) == k + 1 - done
    decreases k - done
  {
    if done < k {
      TransientWaits(server, p, done + 1, k);
      TransientStep(server, p, done, k);
    } else {
      FirstAttemptOk(server, p, done);
    }
  }

  lemma TransientStep(server: Server, p: nat, done: nat, k: nat)
    requires done < k < MaxAttempts && IsTransient(server(p, done + 1))
    requires var r := Attempts(server, p, done + 1);
      r.outcome == Completed && Sum(Waits(r.trace)) + 15 * (done + 1) * (done + 2) == 15 * k * (k + 1)
      && RequestsFor(r.trace, p) == k - done
    ensures var r := Attempts(server, p, done);
      r.outcome == Completed && Sum(Waits(r.trace)) + 15 * done * (done + 1) == 15 * k * (k + 1)
      && RequestsFor(r.trace, p) == k + 1 - done
  {
    var e := Request(p, done + 1);
    var w := Wait(BackoffStep * e.attempt);
    var rest := Attempts(server, p, done + 1);
    assert Attempts(server, p, done) == Join([e, w], rest);
    TriangleStep(done);
    WaitsAppend([e, w], rest.trace);
    SumAppend([BackoffStep * e.attempt], Waits(rest.trace));
    RequestsForAppend([e, w], rest.trace, p);
  }

  lemma FirstAttemptOk(server: Server, p: nat, done: nat)
    requires done < MaxAttempts && server(p, done + 1) == StatusOk
    ensures var r := Attempts(server, p, done);
      r.outcome == Completed && Sum(Waits(r.trace)) == 0 && RequestsFor(r.trace, p) == 1
  {
    var e := Request(p, done + 1);
    assert Attempts(server, p, done) == Run([e], Completed);
    assert Waits([e]) == [] by { assert [e][1..] == []; }
    assert RequestsFor([e], p) == 1 by { assert [e][1..] == []; }
  }

  lemma TriangleStep(d: nat)
    ensures 15 * (d + 1) * (d + 2) == 15 * d * (d + 1) + BackoffStep * (d + 1)
  {
    assert (d + 1) * (d + 2) == (d + 1) * d + 2 * (d + 1);
  }

  /**
   * A page answered by k < 6 transient statuses and then 200 is written
   * exactly once, after k + 1 requests and 30 + 60 + ... + 30k = 15k(k+1)
   * seconds of waiting.
   */
  lemma TransientThenOk(server: Server, p: nat, k: nat)
    requires k < MaxAttempts
    requires forall j :: 1 <= j <= k ==> IsTransient(server(p, j))
    requires server(p, k + 1) == StatusOk
    ensures var r := PageRun(server, p);
      r.outcome == Completed && WrittenPages(r.trace) == [p]
      && RequestsFor(r.trace, p) == k + 1 && Sum(Waits(r.trace)) == 15 * k * (k + 1)
  {
    var a := Attempts(server, p, 0);
    TransientWaits(server, p, 0, k);
    PageRunShape(server, p);
    WaitsAppend(a.trace, [Write(p)]);
    RequestsForAppend(a.trace, [Write(p)], p);
    assert Waits(a.trace) + Waits([Write(p)]) == Waits(a.trace);
  }

  /**
   * Five transient statuses followed by any status other than 200 exhaust
   * the attempts: six requests, waits of 30, 60, 90, 120 and 150 seconds,
   * and the run aborts on that page without writing it.
   */
  lemma RetriesExhausted(server: Server, p: nat)
    requires forall j :: 1 <= j < MaxAttempts ==> IsTransient(server(p, j))
    requires server(p, MaxAttempts) != StatusOk
    ensures var r := PageRun(server, p);
      r.outcome == Aborted(p, server(p, MaxAttempts)) && WrittenPages(r.trace) == []
      && RequestsFor(r.trace, p) == MaxAttempts && Waits(r.trace) == [30, 60, 90, 120, 150]
  {
    ExhaustedFrom(server, p, 0);
    PageRunShape(server, p);
    assert ExhaustedWaits(0) == [30, 60, 90, 120, 150];
  }

  /** The waits of attempts done+1..5, each 30 seconds times its attempt number. */
  function ExhaustedWaits(done: nat): seq<nat>
    requires done < MaxAttempts
  {
    seq(MaxAttempts - 1 - done, i => BackoffStep * (done + 1 + i))
  }

  lemma {:induction false} ExhaustedFrom(server: Server, p: nat, done: nat)
    requires done < MaxAttempts
    requires forall j :: done < j < MaxAttempts ==> IsTransient(server(p, j))
    requires server(p, MaxAttempts) != StatusOk
    ensures var r := Attempts(server, p, done);
      r.outcome == Aborted(p, server(p, MaxAttempts))
      && RequestsFor(r.trace, p) == MaxAttempts - done && Waits(r.trace) == ExhaustedWaits(done)
    decreases MaxAttempts - done
  {
    if done + 1 < MaxAttempts {
      ExhaustedFrom(server, p, done + 1);
      ExhaustedStep(server, p, done);
    } else {
      ExhaustedLast(server, p, done);
    }
  }

  lemma ExhaustedStep(server: Server, p: nat, done: nat)
    requires done + 1 < MaxAttempts
    requires IsTransient(server(p, done + 1))
    requires var r := Attempts(server, p, done + 1);
      r.outcome == Aborted(p, server(p, MaxAttempts))
      && RequestsFor(r.trace, p) == MaxAttempts - (done + 1) && Waits(r.trace) == ExhaustedWaits(done + 1)
    ensures var r := Attempts(server, p, done);
      r.outcome == Aborted(p, server(p, MaxAttempts))
      && RequestsFor(r.trace, p) == MaxAttempts - done && Waits(r.trace) == ExhaustedWaits(done)
  {
    var e := Request(p, done + 1);
    var w := Wait(BackoffStep * e.attempt);
    var rest := Attempts(server, p, done + 1);
    assert Attempts(server, p, done) == Join([e, w], rest);
    WaitsAppend([e, w], rest.trace);
    RequestsForAppend([e, w], rest.trace, p);
    assert ExhaustedWaits(done) == [BackoffStep * (done + 1)] + ExhaustedWaits(done + 1);
  }

  lemma ExhaustedLast(server: Server, p: nat, done: nat)
    requires done + 1 == MaxAttempts
    requires server(p, MaxAttempts) != StatusOk
    ensures var r := Attempts(server, p, done);
      r.outcome == Aborted(p, server(p, MaxAttempts))
      && RequestsFor(r.trace, p) == MaxAttempts - done && Waits(r.trace) == ExhaustedWaits(done)
  {
    var e := Request(p, done + 1);
    assert Attempts(server, p, done) == Run([e], Aborted(p, server(p, MaxAttempts)));
    assert ExhaustedWaits(done) == [];
  }

  // ------------------------------------------------------------ all pages

  /** Pages p..total: every request is for a page in p..total, and no page has more than six. */
  lemma {:induction false} PagesRequests(server: Server, p: nat, total: int)
    ensures var r := Pages(server, p, total);
      RequestsWithin(r.trace, p, total) && AtMostPerPage(r.trace, MaxAttempts) && NoneBelow(r.trace, p)
    decreases total - p + 1
  {
    if p <= total {
      if PageRun(server, p).outcome.Completed? {
        PagesRequests(server, p + 1, total);
        CompletedPageRequests(server, p, total);
      } else {
        AbortedPageRequests(server, p, total);
      }
    } else {
      NoPageRequests(server, p, total);
    }
  }

  lemma NoPageRequests(server: Server, p: nat, total: int)
    requires p > total
    ensures var r := Pages(server, p, total);
      RequestsWithin(r.trace, p, total) && AtMostPerPage(r.trace, MaxAttempts) && NoneBelow(r.trace, p)
  {
    assert Pages(server, p, total).trace == [];
  }

  lemma CompletedPageRequests(server: Server, p: nat, total: int)
    requires p <= total && PageRun(server, p).outcome.Completed?
    requires var r := Pages(server, p + 1, total);
      RequestsWithin(r.trace, p + 1, total) && AtMostPerPage(r.trace, MaxAttempts) && NoneBelow(r.trace, p + 1)
    ensures var r := Pages(server, p, total);
      RequestsWithin(r.trace, p, total) && AtMostPerPage(r.trace, MaxAttempts) && NoneBelow(r.trace, p)
  {
    var pr := PageRun(server, p);
    var rest := Pages(server, p + 1, total);
    PageRunShape(server, p);
    assert Pages(server, p, total).trace == pr.trace + rest.trace;
    PageThenRest(pr.trace, rest.trace, p, total);
  }

  lemma AbortedPageRequests(server: Server, p: nat, total: int)
    requires p <= total && PageRun(server, p).outcome.Aborted?
    ensures var r := Pages(server, p, total);
      RequestsWithin(r.trace, p, total) && AtMostPerPage(r.trace, MaxAttempts) && NoneBelow(r.trace, p)
  {
    var pr := PageRun(server, p);
    PageRunShape(server, p);
    assert Pages(server, p, total) == pr;
    CountsAppend(pr.trace, [], p);
    assert pr.trace + [] == pr.trace;
  }

  /** One page's requests followed by those of the later pages p+1..total. */
  lemma PageThenRest(a: seq<Event>, b: seq<Event>, p: nat, total: int)
    requires p <= total
    requires RequestsWithin(a, p, p) && RequestsFor(a, p) <= MaxAttempts
    requires RequestsWithin(b, p + 1, total) && AtMostPerPage(b, MaxAttempts) && NoneBelow(b, p + 1)
    ensures RequestsWithin(a + b, p, total) && AtMostPerPage(a + b, MaxAttempts) && NoneBelow(a + b, p)
  {
    WithinAppend(a, b, p, total);
    CountsAppend(a, b, p);
  }

  lemma WithinAppend(a: seq<Event>, b: seq<Event>, lo: int, hi: int)
    requires RequestsWithin(a, lo, hi) && RequestsWithin(b, lo, hi)
    ensures RequestsWithin(a + b, lo, hi)
  {
    forall i | 0 <= i < |a + b| && (a + b)[i].Request?
      ensures lo <= (a + b)[i].page <= hi
    {
      if i < |a| {
        assert (a + b)[i] == a[i];
      } else {
        assert (a + b)[i] == b[i - |a|];
      }
    }
  }

  /** One page's requests, at most six, followed by requests for later pages only. */
  lemma CountsAppend(a: seq<Event>, b: seq<Event>, p: nat)
    requires RequestsWithin(a, p, p) && RequestsFor(a, p) <= MaxAttempts
    requires AtMostPerPage(b, MaxAttempts) && NoneBelow(b, p + 1)
    ensures AtMostPerPage(a + b, MaxAttempts) && NoneBelow(a + b, p)
  {
    forall q: nat
      ensures RequestsFor(a + b, q) <= MaxAttempts
      ensures q < p ==> RequestsFor(a + b, q) == 0
    {
      RequestsForAppend(a, b, q);
      if q != p {
        NoRequestsFor(a, p, q);
      }
    }
  }

  /**
   * Pages p..total: the pages written are exactly p up to the page the run
   * stopped on (excluded), or up to total when it completed.
   */
  lemma {:induction false} PagesWritten(server: Server, p: nat, total: int)
    ensures var r := Pages(server, p, total);
      (r.outcome.Aborted? ==>
         p <= r.outcome.page <= total && r.outcome.status != StatusOk
         && WrittenPages(r.trace) == Range(p, r.outcome.page))
      && (r.outcome.Completed? ==> WrittenPages(r.trace) == Range(p, total + 1))
    decreases total - p + 1
  {
    if p <= total {
      var pr := PageRun(server, p);
      PageRunShape(server, p);
      if pr.outcome.Completed? {
        var rest := Pages(server, p + 1, total);
        PagesWritten(server, p + 1, total);
        WrittenPagesAppend(pr.trace, rest.trace);
      }
    }
  }

  /** A trace whose every request is for page p has no request for any other page. */
  lemma {:induction false} NoRequestsFor(t: seq<Event>, p: nat, q: nat)
    requires q != p
    requires RequestsWithin(t, p, p)
    ensures RequestsFor(t, q) == 0
  {
    if t != [] {
      assert RequestsWithin(t[1..], p, p) by {
        forall i | 0 <= i < |t[1..]| && t[1..][i].Request?
          ensures t[1..][i].page == p
        {
          assert t[1..][i] == t[i + 1];
        }
      }
      NoRequestsFor(t[1..], p, q);
    }
  }

  /**
   * The whole run: page 1 is requested once; every other page requested lies
   * in 2..totalPages and is requested at most six times; pages are written in
   * strictly increasing order, namely 1..p-1 when the run aborts on page p
   * (page p itself never), and 1..max(1, totalPages) when it completes.
   */
  lemma FetchAllShape(server: Server, totalPages: int)
    ensures var r := FetchAll(server, totalPages);
      RequestsFor(r.trace, 1) == 1 && AtMostPerPage(r.trace, MaxAttempts)
      && RequestsWithin(r.trace, 1, if totalPages < 1 then 1 else totalPages)
      && (r.outcome.Aborted? ==>
            1 <= r.outcome.page <= (if totalPages < 1 then 1 else totalPages)
            && WrittenPages(r.trace) == Range(1, r.outcome.page))
      && (r.outcome.Completed? ==> WrittenPages(r.trace) == Range(1, (if totalPages < 1 then 1 else totalPages) + 1))
  {
    if server(1, 1) == StatusOk {
      var head := [Request(1, 1), Write(1)];
      var rest := Pages(server, 2, totalPages);
      PagesRequests(server, 2, totalPages);
      PagesWritten(server, 2, totalPages);
      WrittenPagesAppend(head, rest.trace);
      assert WrittenPages(head) == [1];
      forall q: nat
        ensures RequestsFor(head + rest.trace, q) <= MaxAttempts
        ensures q == 1 ==> RequestsFor(head + rest.trace, q) == 1
      {
        RequestsForAppend(head, rest.trace, q);
      }
      var t := head + rest.trace;
      forall i | 0 <= i < |t| && t[i].Request?
        ensures t[i].page == 1 || 2 <= t[i].page <= totalPages
      {
        if i >= 2 {
          assert t[i] == rest.trace[i - 2];
        }
      }
    }
  }

  // --------------------------------------------------------- event order

  /** Every wait directly follows a retried request, and lasts 30 seconds times its attempt number. */
  predicate WaitsJustified(server: Server, t: seq<Event>) {
    forall i :: 0 <= i < |t| && t[i].Wait? ==>
      0 < i && t[i - 1].Request? && Retried(server, t[i - 1]) && t[i].seconds == BackoffStep * t[i - 1].attempt
  }

  /** A fatal request is the last event of the trace, and the run aborts with its page and status. */
  predicate StopsFinal(server: Server, r: Run) {
    forall i :: 0 <= i < |r.trace| && r.trace[i].Request? && Fatal(server, r.trace[i]) ==>
      i == |r.trace| - 1 && r.outcome == Aborted(r.trace[i].page, StatusOf(server, r.trace[i]))
  }

  /** Both event-order properties of a run, and its trace opens with a request. */
  predicate Ordered(server: Server, r: Run) {
    |r.trace| > 0 && r.trace[0].Request? && WaitsJustified(server, r.trace) && StopsFinal(server, r)
  }

  /** A completed run has no fatal request, so the order properties carry over to what follows it. */
  lemma JoinOrdered(server: Server, a: Run, b: Run)
    requires Ordered(server, a) && a.outcome.Completed?
    requires Ordered(server, b)
    ensures Ordered(server, Join(a.trace, b))
  {
    var t := a.trace + b.trace;
    forall i | 0 <= i < |t| && t[i].Wait?
      ensures 0 < i && t[i - 1].Request? && Retried(server, t[i - 1]) && t[i].seconds == BackoffStep * t[i - 1].attempt
    {
      if i >= |a.trace| {
        assert t[i] == b.trace[i - |a.trace|];
        assert i - |a.trace| > 0;
        assert t[i - 1] == b.trace[i - 1 - |a.trace|];
      } else {
        assert t[i] == a.trace[i];
        assert t[i - 1] == a.trace[i - 1];
      }
    }
    assert forall i :: 0 <= i < |a.trace| ==> t[i] == a.trace[i];
    assert forall i :: 0 <= i < |a.trace| && a.trace[i].Request? ==> !Fatal(server, a.trace[i]);
    forall i | |a.trace| <= i < |t| && t[i].Request? && Fatal(server, t[i])
      ensures i == |t| - 1 && Join(a.trace, b).outcome == Aborted(t[i].page, StatusOf(server, t[i]))
    {
      assert t[i] == b.trace[i - |a.trace|];
    }
  }

  lemma {:induction false} AttemptsOrdered(server: Server, p: nat, done: nat)
    requires done < MaxAttempts
    ensures Ordered(server, Attempts(server, p, done))
    ensures Attempts(server, p, done).trace[0] == Request(p, done + 1)
    decreases MaxAttempts - done
  {
    var e := Request(p, done + 1);
    if StatusOf(server, e) != StatusOk && Retried(server, e) {
      var w := Wait(BackoffStep * e.attempt);
      var rest := Attempts(server, p, done + 1);
      AttemptsOrdered(server, p, done + 1);
      var head := Run([e, w], Completed);
      assert Ordered(server, head) by {
        assert head.trace[1] == w;
      }
      JoinOrdered(server, head, rest);
    }
  }

  lemma PageRunOrdered(server: Server, p: nat)
    ensures Ordered(server, PageRun(server, p))
  {
    var a := Attempts(server, p, 0);
    AttemptsOrdered(server, p, 0);
    if a.outcome.Completed? {
      assert Ordered(server, Run(a.trace + [Write(p)], Completed)) by {
        // the trace of a completed retry loop ends with the request answered 200
        var t := a.trace + [Write(p)];
        assert forall i :: 0 <= i < |a.trace| ==> t[i] == a.trace[i];
        assert forall i :: 0 <= i < |a.trace| && a.trace[i].Request? ==> !Fatal(server, a.trace[i]);
        forall i | 0 <= i < |t| && t[i].Wait?
          ensures 0 < i && t[i - 1].Request? && Retried(server, t[i - 1]) && t[i].seconds == BackoffStep * t[i - 1].attempt
        {
          assert t[i] == a.trace[i];
          assert t[i - 1] == a.trace[i - 1];
        }
      }
    }
  }

  lemma {:induction false} PagesOrdered(server: Server, p: nat, total: int)
    requires p <= total
    ensures Ordered(server, Pages(server, p, total))
    decreases total - p + 1
  {
    var r := PageRun(server, p);
    PageRunOrdered(server, p);
    if r.outcome.Completed? && p + 1 <= total {
      PagesOrdered(server, p + 1, total);
      JoinOrdered(server, r, Pages(server, p + 1, total));
    }
  }

  /**
   * Over the whole run, a wait only ever follows a request answered by
   * 500, 502, 503 or 504 before the sixth attempt, and lasts 30 seconds
   * times that attempt's number; any other status but 200 is the last
   * thing that happens, and the run aborts on that page with that status.
   */
  lemma FetchAllOrdered(server: Server, totalPages: int)
    ensures WaitsJustified(server, FetchAll(server, totalPages).trace)
    ensures StopsFinal(server, FetchAll(server, totalPages))
  {
    var head := Run([Request(1, 1), Write(1)], Completed);
    if server(1, 1) == StatusOk {
      assert Ordered(server, head) by {
        assert head.trace[1] == Write(1);
      }
      if 2 <= totalPages {
        PagesOrdered(server, 2, totalPages);
        JoinOrdered(server, head, Pages(server, 2, totalPages));
      }
    }
  }

  // ------------------------------------------------------------ file names

  /** The name the page is saved under: f"page_{n:05d}.json". */
  function PageFileName(n: nat): (name: string)
    ensures |name| == 10 + |ZeroPad(n, 5)|
    ensures name[..5] == "page_" && name[|name| - 5..] == ".json"
    ensures name[5..|name| - 5] == ZeroPad(n, 5) && AllDigits(name[5..|name| - 5])
  {
    "page_" + ZeroPad(n, 5) + ".json"
  }

  /** Page 1's literal name is the same as the formatted one. */
  lemma FirstPageFileName(n: nat)
    requires n == 1
    ensures PageFileName(n) == "page_00001.json"
  {
    assert NatToString(n) == "1";
    assert ZeroPad(n, 5) == "00001";
  }
}

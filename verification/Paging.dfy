/**
 Reading the whole automation history page by page, with a page size that halves whenever the
 host refuses a reply as too large.  A server is any function of the request and of the number of
 calls before it, so it may answer the same request differently each time.
 */
module Paging {
  import opened Wrappers

  const PAGE_SIZE: nat := 25

  /** One run of an automation, with the snapshot that makes replies large. */
  datatype Run = Run(id: string, snapshot: string)

  datatype Request = Request(limit: nat, cursor: Option<string>)

  datatype Reply = Page(runs: seq<Run>, next: Option<string>) | TooLarge | Failed(code: string)

  type Server = (Request, nat) -> Reply

  datatype ReadError = StillTooLarge | Other(code: string)

  /** A page, the limit it was read with, and how many calls and halvings that took. */
  datatype PageRead = PageRead(page: Result<Reply, ReadError>, limit: nat, calls: nat, halvings: nat)

  function ShrinkingPage(server: Server, limit: nat, cursor: Option<string>, calls: nat): (read: PageRead)
    ensures read.limit <= limit && (limit > 0 ==> read.limit > 0)
    ensures read.page.Ok? ==> read.page.value.Page? && read.calls > calls &&
                              read.page.value == server(Request(read.limit, cursor), read.calls - 1)
  {
    var reply := server(Request(limit, cursor), calls);
    if reply.Page? then PageRead(Ok(reply), limit, calls + 1, 0)
    else if reply.Failed? then PageRead(Err(Other(reply.code)), limit, calls + 1, 0)
    else if limit <= 1 then PageRead(Err(StillTooLarge), limit, calls + 1, 0)
    else
      var rest := ShrinkingPage(server, limit / 2, cursor, calls + 1);
      rest.(halvings := rest.halvings + 1)
  }

  method ReadShrinkingPage(server: Server, query: Request, calls: nat) returns (read: PageRead)
    ensures read == ShrinkingPage(server, query.limit, query.cursor, calls)
  {
    var limit, made, halvings: nat := query.limit, calls, 0;
    while true
      invariant var rest := ShrinkingPage(server, limit, query.cursor, made);
                ShrinkingPage(server, query.limit, query.cursor, calls) == rest.(halvings := rest.halvings + halvings)
      decreases limit
    {
      var reply := server(Request(limit, query.cursor), made);
      made := made + 1;
      if reply.Page? { return PageRead(Ok(reply), limit, made, halvings); }
      if reply.Failed? { return PageRead(Err(Other(reply.code)), limit, made, halvings); }
      if limit <= 1 { return PageRead(Err(StillTooLarge), limit, made, halvings); }
      limit := limit / 2;
      halvings := halvings + 1;
    }
  }

  datatype Progress = Reading | Finished | Threw(error: ReadError)

  /** The reader's variables; `pages` and `halvings` count what it has done. */
  datatype Reader = Reader(
    progress: Progress,
    runs: seq<Run>,
    seen: set<string>,
    cursor: Option<string>,
    limit: nat,
    calls: nat,
    pages: nat,
    halvings: nat)

  const START := Reader(Reading, [], {}, None, PAGE_SIZE, 0, 0, 0)

  /** One turn of the loop: a page without a cursor, or with one seen before, is the last. */
  function NextPage(server: Server, s: Reader): Reader {
    var read := ShrinkingPage(server, s.limit, s.cursor, s.calls);
    var t := s.(limit := read.limit, calls := read.calls, halvings := s.halvings + read.halvings);
    if read.page.Err? then t.(progress := Threw(read.page.error))
    else
      var next := read.page.value.next;
      var u := t.(runs := s.runs + read.page.value.runs, pages := s.pages + 1);
      if next.None? || next.value == "" || next.value in s.seen then u.(progress := Finished)
      else u.(seen := s.seen + {next.value}, cursor := next)
  }

  /** The reader after at most `pages` turns. */
  function AfterPages(server: Server, s: Reader, pages: nat): Reader
    decreases pages
  {
    if pages == 0 || s.progress != Reading then s else AfterPages(server, NextPage(server, s), pages - 1)
  }

  /** `readAllAutomationRuns`, watched for at most `pages` turns of its loop. */
  method ReadAllAutomationRuns(server: Server, pages: nat) returns (reader: Reader)
    ensures reader == AfterPages(server, START, pages)
  {
    hide ShrinkingPage;
    var runs: seq<Run>, seen: set<string>, cursor: Option<string> := [], {}, None;
    var limit, calls, read, halvings: nat := PAGE_SIZE, 0, 0, 0;
    while read < pages
      invariant read <= pages
      invariant AfterPages(server, Reader(Reading, runs, seen, cursor, limit, calls, read, halvings), pages - read) ==
                AfterPages(server, START, pages)
    {
      ghost var before := Reader(Reading, runs, seen, cursor, limit, calls, read, halvings);
      var result := ReadShrinkingPage(server, Request(limit, cursor), calls);
      limit, calls, halvings := result.limit, result.calls, halvings + result.halvings;
      if result.page.Err? {
        reader := Reader(Threw(result.page.error), runs, seen, cursor, limit, calls, read, halvings);
        assert NextPage(server, before) == reader;
        return;
      }
      runs := runs + result.page.value.runs;
      read := read + 1;
      var next := result.page.value.next;
      if next.None? || next.value == "" || next.value in seen {
        reader := Reader(Finished, runs, seen, cursor, limit, calls, read, halvings);
        assert NextPage(server, before) == reader;
        return;
      }
      seen := seen + {next.value};
      cursor := next;
      assert NextPage(server, before) == Reader(Reading, runs, seen, cursor, limit, calls, read, halvings);
    }
    reader := Reader(Reading, runs, seen, cursor, limit, calls, read, halvings);
  }

  /** The limit after `n` halvings. */
  function Halved(limit: nat, n: nat): nat
    decreases n
  {
    if n == 0 then limit else Halved(limit, n - 1) / 2
  }

  lemma {:induction false} HalvedFirst(limit: nat, n: nat)
    ensures Halved(limit, n + 1) == Halved(limit / 2, n)
    decreases n
  {
    if n > 0 { HalvedFirst(limit, n - 1); }
  }

  /** The first `n` calls, each with half the limit of the one before, are refused as too large. */
  ghost predicate Refuses(server: Server, limit: nat, cursor: Option<string>, calls: nat, n: nat) {
    forall k: nat :: k < n ==>
      Halved(limit, k) > 1 && server(Request(Halved(limit, k), cursor), calls + k) == TooLarge
  }

  /**
   One page: the server refused it as too large, call after call, each with half the limit, as long as
   that was more than 1; the last reply is the page, or is the error that is thrown.
   */
  ghost predicate IsPageRead(server: Server, limit: nat, cursor: Option<string>, calls: nat, read: PageRead) {
    var n := read.halvings;
    var reply := server(Request(read.limit, cursor), calls + n);
    && read.limit == Halved(limit, n) && read.calls == calls + n + 1
    && Refuses(server, limit, cursor, calls, n)
    && (reply.Page? <==> read.page == Ok(reply))
    && (forall code :: read.page == Err(Other(code)) <==> reply == Failed(code))
    && (read.page == Err(StillTooLarge) <==> reply == TooLarge)
    && (reply == TooLarge ==> read.limit <= 1)
  }

  lemma {:induction false} PageIs(server: Server, limit: nat, cursor: Option<string>, calls: nat)
    ensures IsPageRead(server, limit, cursor, calls, ShrinkingPage(server, limit, cursor, calls))
    decreases limit
  {
    if server(Request(limit, cursor), calls).TooLarge? && limit > 1 {
      hide IsPageRead;
      PageIs(server, limit / 2, cursor, calls + 1);
      PageGrows(server, limit, cursor, calls, ShrinkingPage(server, limit / 2, cursor, calls + 1));
    } else {
      assert Halved(limit, 0) == limit && Refuses(server, limit, cursor, calls, 0);
    }
  }

  lemma PageGrows(server: Server, limit: nat, cursor: Option<string>, calls: nat, rest: PageRead)
    requires limit > 1 && server(Request(limit, cursor), calls) == TooLarge
    requires IsPageRead(server, limit / 2, cursor, calls + 1, rest)
    ensures IsPageRead(server, limit, cursor, calls, rest.(halvings := rest.halvings + 1))
  {
    hide Refuses, Halved;
    HalvedFirst(limit, rest.halvings);
    RefusesFirst(server, limit, cursor, calls, rest.halvings);
    assert calls + 1 + rest.halvings == calls + (rest.halvings + 1);
  }

  lemma RefusesFirst(server: Server, limit: nat, cursor: Option<string>, calls: nat, n: nat)
    requires limit > 1 && server(Request(limit, cursor), calls) == TooLarge
    requires Refuses(server, limit / 2, cursor, calls + 1, n)
    ensures Refuses(server, limit, cursor, calls, n + 1)
  {
    forall k: nat | k < n + 1
      ensures Halved(limit, k) > 1 && server(Request(Halved(limit, k), cursor), calls + k) == TooLarge
    {
      if k > 0 {
        HalvedFirst(limit, k - 1);
        assert server(Request(Halved(limit / 2, k - 1), cursor), calls + 1 + (k - 1)) == TooLarge;
      }
    }
  }

  // ---- The pages of a read

  /** The page reads of a client that follows every cursor, each with the limit of the one before; `n` at most. */
  function Chain(server: Server, limit: nat, cursor: Option<string>, calls: nat, n: nat): (made: seq<PageRead>)
    ensures |made| <= n
    ensures forall i :: 0 <= i < |made| && made[i].page.Ok? ==> made[i].page.value.Page?
    decreases n
  {
    if n == 0 then []
    else
      var read := ShrinkingPage(server, limit, cursor, calls);
      [read] +
      if read.page.Err? || IsLast(read.page.value) then []
      else Chain(server, read.limit, read.page.value.next, read.calls, n - 1)
  }

  /** A page without a cursor. */
  predicate IsLast(page: Reply)
    requires page.Page?
  {
    page.next == None || page.next == Some("")
  }

  /** The read ends there: with an error, without a cursor, or with one of `seen` or of an earlier page. */
  predicate EndsAt(made: seq<PageRead>, m: nat, seen: set<string>)
    requires m < |made| && forall i :: 0 <= i < |made| && made[i].page.Ok? ==> made[i].page.value.Page?
  {
    || made[m].page.Err?
    || IsLast(made[m].page.value)
    || made[m].page.value.next.value in seen
    || exists j :: 0 <= j < m && made[j].page.Ok? && made[j].page.value.next == made[m].page.value.next
  }

  /** The first page read that ends the read; their number when none does. */
  ghost predicate IsEnd(made: seq<PageRead>, m: nat, seen: set<string>)
    requires forall i :: 0 <= i < |made| && made[i].page.Ok? ==> made[i].page.value.Page?
  {
    m <= |made| && (m < |made| ==> EndsAt(made, m, seen)) && forall k: nat :: k < m ==> !EndsAt(made, k, seen)
  }

  function RunsOf(made: seq<PageRead>): seq<Run>
    requires forall i :: 0 <= i < |made| && made[i].page.Ok? ==> made[i].page.value.Page?
  {
    if made == [] then []
    else (if made[0].page.Ok? then made[0].page.value.runs else []) + RunsOf(made[1..])
  }

  /** What the reader is left with when it has read these, and the last of them ends the read or not. */
  ghost predicate IsReadTo(t: Reader, s: Reader, made: seq<PageRead>, m: nat)
    requires m <= |made| && forall i :: 0 <= i < |made| && made[i].page.Ok? ==> made[i].page.value.Page?
  {
    if m == |made| then t.progress == Reading && t.runs == s.runs + RunsOf(made)
    else
      && t.runs == s.runs + RunsOf(made[..m + 1])
      && t.progress == if made[m].page.Err? then Threw(made[m].page.error) else Finished
  }

  lemma EndMoves(made: seq<PageRead>, m: nat, seen: set<string>)
    requires made != [] && forall i :: 0 <= i < |made| && made[i].page.Ok? ==> made[i].page.value.Page?
    requires !EndsAt(made, 0, seen) && IsEnd(made[1..], m, seen + {made[0].page.value.next.value})
    ensures IsEnd(made, m + 1, seen)
  {
    var rest, cursor := made[1..], made[0].page.value.next.value;
    forall k: nat | k < |rest| ensures EndsAt(rest, k, seen + {cursor}) <==> EndsAt(made, k + 1, seen) {
      assert rest[k] == made[k + 1];
      if !EndsAt(rest, k, seen + {cursor}) {
        forall j | 0 <= j < k + 1 && made[j].page.Ok?
          ensures made[j].page.value.next != made[k + 1].page.value.next
        {
          if j > 0 { assert made[j] == rest[j - 1]; }
        }
      }
      if !EndsAt(made, k + 1, seen) {
        forall j | 0 <= j < k && rest[j].page.Ok? ensures rest[j].page.value.next != rest[k].page.value.next {
          assert rest[j] == made[j + 1];
        }
      }
    }
    forall k: nat | k < m + 1 ensures !EndsAt(made, k, seen) {
      if k > 0 { assert !EndsAt(rest, k - 1, seen + {cursor}); }
    }
  }

  lemma EndsAtOnce(server: Server, s: Reader, n: nat)
    requires s.progress == Reading && n > 0 && EndsAt(Chain(server, s.limit, s.cursor, s.calls, n), 0, s.seen)
    ensures IsReadTo(AfterPages(server, s, n), s, Chain(server, s.limit, s.cursor, s.calls, n), 0)
  {
    hide ShrinkingPage;
    var made, next := Chain(server, s.limit, s.cursor, s.calls, n), NextPage(server, s);
    assert AfterPages(server, s, n) == AfterPages(server, next, n - 1) == next;
    OneRead(made[0]);
    assert made[..1] == [made[0]];
    assert s.runs + [] == s.runs;
  }

  lemma OneRead(read: PageRead)
    requires read.page.Ok? ==> read.page.value.Page?
    ensures RunsOf([read]) == if read.page.Ok? then read.page.value.runs else []
  {
    assert [read][1..] == [];
    if read.page.Ok? { assert read.page.value.runs + [] == read.page.value.runs; }
  }

  lemma {:induction false} ReaderTells(server: Server, s: Reader, n: nat) returns (m: nat)
    requires s.progress == Reading
    ensures var made := Chain(server, s.limit, s.cursor, s.calls, n);
            IsEnd(made, m, s.seen) && IsReadTo(AfterPages(server, s, n), s, made, m)
    ensures var made := Chain(server, s.limit, s.cursor, s.calls, n); m == |made| ==> m == n
    decreases n
  {
    hide ShrinkingPage;
    var made := Chain(server, s.limit, s.cursor, s.calls, n);
    if n == 0 {
      m := 0;
      assert s.runs + [] == s.runs;
    } else {
      var next := NextPage(server, s);
      assert AfterPages(server, s, n) == AfterPages(server, next, n - 1);
      if EndsAt(made, 0, s.seen) {
        m := 0;
        EndsAtOnce(server, s, n);
      } else {
        var k := ReaderTells(server, next, n - 1);
        var rest := Chain(server, next.limit, next.cursor, next.calls, n - 1);
        assert made[1..] == rest;
        EndMoves(made, k, s.seen);
        m := k + 1;
        Grouped(s.runs, made[0].page.value.runs, RunsOf(rest));
        if m < |made| {
          assert made[..m + 1][1..] == rest[..k + 1];
          Grouped(s.runs, made[0].page.value.runs, RunsOf(rest[..k + 1]));
        }
      }
    }
  }

  lemma Grouped(a: seq<Run>, b: seq<Run>, c: seq<Run>)
    ensures (a + b) + c == a + (b + c)
  {
  }

  /**
   Against any server the read is the client that starts with 25 runs a page and follows every cursor,
   up to the first page that cannot be read, has no cursor or repeats one: an error is thrown, and
   otherwise the runs of all those pages are returned.
   */
  lemma ReadIsChain(server: Server, n: nat) returns (m: nat)
    ensures var made := Chain(server, 25, None, 0, n);
            && IsEnd(made, m, {}) && (m == |made| ==> m == n)
            && var t := AfterPages(server, START, n);
               if m == |made| then t.progress == Reading && t.runs == RunsOf(made)
               else
                 && t.runs == RunsOf(made[..m + 1])
                 && t.progress == if made[m].page.Err? then Threw(made[m].page.error) else Finished
  {
    m := ReaderTells(server, START, n);
    var made := Chain(server, 25, None, 0, n);
    assert [] + RunsOf(made) == RunsOf(made);
    if m < |made| { assert [] + RunsOf(made[..m + 1]) == RunsOf(made[..m + 1]); }
  }

  /** How often a limit can be halved before it is 1. */
  function Halvings(limit: nat): nat {
    if limit <= 1 then 0 else 1 + Halvings(limit / 2)
  }

  lemma {:induction false} ShrinkingUsesUpLimit(server: Server, limit: nat, cursor: Option<string>, calls: nat)
    ensures var read := ShrinkingPage(server, limit, cursor, calls);
            read.halvings + Halvings(read.limit) == Halvings(limit)
    decreases limit
  {
    if server(Request(limit, cursor), calls).TooLarge? && limit > 1 {
      ShrinkingUsesUpLimit(server, limit / 2, cursor, calls + 1);
    }
  }

  lemma {:induction false} LimitOnlyShrinks(server: Server, s: Reader, pages: nat)
    ensures var t := AfterPages(server, s, pages);
            t.limit <= s.limit && t.halvings + Halvings(t.limit) == s.halvings + Halvings(s.limit)
    decreases pages
  {
    if pages > 0 && s.progress == Reading {
      ShrinkingUsesUpLimit(server, s.limit, s.cursor, s.calls);
      LimitOnlyShrinks(server, NextPage(server, s), pages - 1);
    }
  }

  /** The page size never grows and is halved at most four times in the whole read. */
  lemma AtMostFourHalvings(server: Server, pages: nat)
    ensures var t := AfterPages(server, START, pages); t.halvings <= 4 && t.limit <= PAGE_SIZE
  {
    LimitOnlyShrinks(server, START, pages);
    assert Halvings(25) == 4 by { assert Halvings(12) == 3 by { assert Halvings(6) == 2; } }
  }

  function Position(cursor: Option<string>, position: string -> nat): nat {
    if cursor.None? then 0 else position(cursor.value)
  }

  function Order(cursor: Option<string>, order: string -> nat): int {
    if cursor.None? then -1 else order(cursor.value)
  }

  /**
   The server pages a fixed history: from the cursor's position it sends what comes next, any
   amount of it and possibly nothing, with a new cursor for the position behind, or none at the
   end.  That it sends no cursor again is told by an order in which each page's cursor is later.
   */
  ghost predicate PagesHistory(server: Server, history: seq<Run>, position: string -> nat, order: string -> nat) {
    forall request, calls ::
      var reply := server(request, calls); reply.Page? ==> PageOk(reply, request.cursor, history, position, order)
  }

  ghost predicate PageOk(reply: Reply, cursor: Option<string>, history: seq<Run>, position: string -> nat,
      order: string -> nat)
    requires reply.Page?
  {
    var from := Position(cursor, position);
    var to := from + |reply.runs|;
    && to <= |history| && reply.runs == history[from..to]
    && (reply.next.None? ==> to == |history|)
    && (reply.next.Some? ==>
          reply.next.value != "" && position(reply.next.value) == to && order(reply.next.value) > Order(cursor, order))
  }

  /** Every page that is not the last has a run. */
  ghost predicate SendsRuns(server: Server) {
    forall request, calls :: var reply := server(request, calls); reply.Page? && reply.next.Some? ==> reply.runs != []
  }

  /** The reader has read the history up to its cursor, and every cursor seen is at or before it in the order. */
  ghost predicate OnTrack(server: Server, s: Reader, history: seq<Run>, position: string -> nat, order: string -> nat) {
    var at := Position(s.cursor, position);
    && (s.progress == Reading ==> at <= |history| && s.runs == history[..at] && s.pages <= Order(s.cursor, order) + 1)
    && (s.progress == Reading ==> forall c :: c in s.seen ==> order(c) <= Order(s.cursor, order))
    && (s.progress == Reading && SendsRuns(server) ==> s.pages <= at)
    && (s.progress == Finished ==> s.runs == history)
  }

  lemma NextPageOnTrack(server: Server, s: Reader, history: seq<Run>, position: string -> nat, order: string -> nat)
    requires PagesHistory(server, history, position, order)
    requires s.progress == Reading && OnTrack(server, s, history, position, order)
    ensures OnTrack(server, NextPage(server, s), history, position, order)
    ensures NextPage(server, s).progress == Reading ==> NextPage(server, s).pages == s.pages + 1
  {
    var read := ShrinkingPage(server, s.limit, s.cursor, s.calls);
    if read.page.Ok? {
      assert PageOk(server(Request(read.limit, s.cursor), read.calls - 1), s.cursor, history, position, order);
      var from := Position(s.cursor, position);
      var to := from + |read.page.value.runs|;
      assert history[..from] + history[from..to] == history[..to];
      assert history[..|history|] == history;
    }
  }

  lemma {:induction false} StaysOnTrack(server: Server, s: Reader, pages: nat, history: seq<Run>,
      position: string -> nat, order: string -> nat)
    requires PagesHistory(server, history, position, order) && OnTrack(server, s, history, position, order)
    ensures OnTrack(server, AfterPages(server, s, pages), history, position, order)
    ensures AfterPages(server, s, pages).progress == Reading ==> AfterPages(server, s, pages).pages == s.pages + pages
    decreases pages
  {
    if pages > 0 && s.progress == Reading {
      NextPageOnTrack(server, s, history, position, order);
      StaysOnTrack(server, NextPage(server, s), pages - 1, history, position, order);
    }
  }

  /**
   Against such a server the read throws, or returns the history exactly; and if every page but the
   last has a run, it takes one page per run and one more at most.
   */
  lemma ReadsHistoryExactly(server: Server, pages: nat, history: seq<Run>, position: string -> nat,
      order: string -> nat)
    requires PagesHistory(server, history, position, order)
    ensures var t := AfterPages(server, START, pages);
            && (t.progress == Finished ==> t.runs == history)
            && (SendsRuns(server) && pages > |history| ==> t.progress != Reading)
  {
    StaysOnTrack(server, START, pages, history, position, order);
  }

  /** The server never fails, except that it may refuse a page of more than one run as too large. */
  ghost predicate NeverFails(server: Server) {
    forall request, calls ::
      var reply := server(request, calls); !reply.Failed? && (request.limit <= 1 ==> !reply.TooLarge?)
  }

  lemma {:induction false} ShrinkingSucceeds(server: Server, limit: nat, cursor: Option<string>, calls: nat)
    requires NeverFails(server)
    ensures ShrinkingPage(server, limit, cursor, calls).page.Ok?
    decreases limit
  {
    var reply := server(Request(limit, cursor), calls);
    if reply.TooLarge? { ShrinkingSucceeds(server, limit / 2, cursor, calls + 1); }
  }

  lemma {:induction false} NeverThrows(server: Server, s: Reader, pages: nat)
    requires NeverFails(server) && !s.progress.Threw?
    ensures !AfterPages(server, s, pages).progress.Threw?
    decreases pages
  {
    if pages > 0 && s.progress == Reading {
      ShrinkingSucceeds(server, s.limit, s.cursor, s.calls);
      NeverThrows(server, NextPage(server, s), pages - 1);
    }
  }

  /** So against a server that also never fails, the read does return the whole history, as soon as it stops. */
  lemma ReadSucceeds(server: Server, pages: nat, history: seq<Run>, position: string -> nat, order: string -> nat)
    requires PagesHistory(server, history, position, order) && NeverFails(server)
    ensures var t := AfterPages(server, START, pages);
            && (t.progress != Reading ==> t.progress == Finished && t.runs == history)
            && (SendsRuns(server) && pages > |history| ==> t.progress == Finished)
  {
    ReadsHistoryExactly(server, pages, history, position, order);
    NeverThrows(server, START, pages);
  }

  ghost predicate CursorsIn(server: Server, cursors: set<string>) {
    forall request, calls ::
      var reply := server(request, calls); reply.Page? && reply.next.Some? ==> reply.next.value in cursors
  }

  lemma {:induction false} SeenCursors(server: Server, s: Reader, pages: nat, cursors: set<string>)
    requires CursorsIn(server, cursors) && s.seen <= cursors && (s.progress == Reading ==> |s.seen| == s.pages)
    ensures var t := AfterPages(server, s, pages);
            t.seen <= cursors && (t.progress == Reading ==> |t.seen| == t.pages && t.pages == s.pages + pages)
    decreases pages
  {
    if pages > 0 && s.progress == Reading {
      var read := ShrinkingPage(server, s.limit, s.cursor, s.calls);
      if read.page.Ok? {
        var reply := server(Request(read.limit, s.cursor), read.calls - 1);
        assert reply.next.Some? ==> reply.next.value in cursors;
      }
      SeenCursors(server, NextPage(server, s), pages - 1, cursors);
    }
  }

  /** Whatever a server with finitely many cursors sends, the read stops after one page more than it has cursors. */
  lemma StopsOnFiniteCursors(server: Server, pages: nat, cursors: set<string>)
    requires CursorsIn(server, cursors) && pages > |cursors|
    ensures AfterPages(server, START, pages).progress != Reading
  {
    SeenCursors(server, START, pages, cursors);
    var t := AfterPages(server, START, pages);
    Smaller(t.seen, cursors);
  }

  /**
   Together: such a server with finitely many cursors gets its history returned within one page more than it has
   cursors.
   */
  lemma ReadReturnsHistory(server: Server, pages: nat, history: seq<Run>, position: string -> nat, order: string -> nat,
                           cursors: set<string>)
    requires PagesHistory(server, history, position, order) && NeverFails(server)
    requires CursorsIn(server, cursors) && pages > |cursors|
    ensures var t := AfterPages(server, START, pages); t.progress == Finished && t.runs == history
  {
    ReadSucceeds(server, pages, history, position, order);
    StopsOnFiniteCursors(server, pages, cursors);
  }

  lemma Smaller(a: set<string>, b: set<string>)
    requires a <= b
    ensures |a| <= |b|
  {
    assert b == a + (b - a);
  }
}

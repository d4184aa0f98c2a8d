/** One open file shared by any number of Read, Write and Close calls. Every
    atomic action of a call is one step; a schedule names the call that moves
    next. Proved over all schedules: the file is never touched once it is closed,
    a closer that waits can always be released, and every byte count reported at
    close is exact. */
module FileHandle {

  datatype Call = Read | Write | Close

  /** Where a call stands. Read and Write: look the handle up, test the closing
      flag, join the wait group, test again, do the I/O, account for it, leave.
      Close: look up, raise the flag, wait, close the file, read the counters,
      report, unregister. */
  datatype Pc =
    | Start | Refused
    | Loaded | Checked | Added | BackingOut | Entered | Counting(n: nat) | Leaving
    | Marked | Drained | Shut | Reporting(report: Report) | Deleting
    | Finished

  datatype Report = Report(readBytes: nat, writeBytes: nat, any: bool)

  datatype Thread = Thread(call: Call, pc: Pc)

  datatype Io = Io(call: Call, n: nat)

  /** The registration of the handle, the closing flag and wait group of the open
      file; its counters; and a history: performed maps each call to the I/O it did,
      counted are the calls already added to the counters, reports the values handed
      to the close callback. */
  datatype Flags = Flags(registered: bool, closing: bool, wg: int, fileClosed: bool)

  datatype Books = Books(
    readBytes: nat, writeBytes: nat, hadRead: bool, hadWrite: bool,
    performed: map<nat, Io>, counted: set<nat>, reports: map<nat, Report>)

  datatype State = State(f: Flags, b: Books, threads: map<nat, Thread>)

  datatype Event = Spawn(t: nat, call: Call) | Move(t: nat, n: nat)

  const WORD: nat := 0x1_0000_0000_0000_0000

  const Initial := State(Flags(true, false, 0, false), Books(0, 0, false, false, map[], {}, map[]), map[])

  /** Where call t stands after its next atomic action; n is what the system call
      transfers. A closer whose wait has not ended stays where it is. */
  function NextPc(f: Flags, b: Books, th: Thread, n: nat): Pc {
    match th.pc
    case Start => if f.registered then Loaded else Refused
    case Loaded => if th.call.Close? then Marked else if f.closing then Refused else Checked
    case Checked => Added
    case Added => if f.closing then BackingOut else Entered
    case BackingOut => Refused
    case Entered => if n > 0 then Counting(n) else Leaving
    case Counting(_) => Leaving
    case Leaving => Finished
    case Marked => if f.wg == 0 then Drained else Marked
    case Drained => Shut
    case Shut => Reporting(Report(b.readBytes, b.writeBytes, b.hadRead || b.hadWrite))
    case Reporting(_) => Deleting
    case Deleting => Finished
    case Refused => Refused
    case Finished => Finished
  }

  /** What that action does to the flags ... */
  function NextFlags(f: Flags, th: Thread): Flags {
    match th.pc
    case Loaded => if th.call.Close? then f.(closing := true) else f
    case Checked => f.(wg := f.wg + 1)
    case BackingOut => f.(wg := f.wg - 1)
    case Leaving => f.(wg := f.wg - 1)
    case Drained => f.(fileClosed := true)
    case Deleting => f.(registered := false)
    case _ => f
  }

  /** ... and to the counters and the history. */
  function NextBooks(b: Books, t: nat, th: Thread, n: nat): Books {
    match th.pc
    case Entered => b.(performed := b.performed[t := Io(th.call, n)])
    case Counting(k) =>
      if th.call.Read?
      then b.(readBytes := (b.readBytes + k) % WORD, hadRead := true, counted := b.counted + {t})
      else b.(writeBytes := (b.writeBytes + k) % WORD, hadWrite := true, counted := b.counted + {t})
    case Reporting(r) => if r.any then b.(reports := b.reports[t := r]) else b
    case _ => b
  }

  function Step(s: State, e: Event): State {
    match e
    case Spawn(t, call) =>
      if t in s.threads then s else s.(threads := s.threads[t := Thread(call, Start)])
    case Move(t, n) =>
      if t !in s.threads then s
      else
        var th := s.threads[t];
        State(NextFlags(s.f, th), NextBooks(s.b, t, th, n),
              s.threads[t := Thread(th.call, NextPc(s.f, s.b, th, n))])
  }

  function Run(schedule: seq<Event>): State {
    if |schedule| == 0 then Initial else Step(Run(schedule[..|schedule| - 1]), schedule[|schedule| - 1])
  }

  // --------------------------------------------------------------- invariants

  /** Calls that hold the wait group. */
  predicate Holding(th: Thread) {
    th.pc.Added? || th.pc.BackingOut? || th.pc.Entered? || th.pc.Counting? || th.pc.Leaving?
  }

  function Holders(threads: map<nat, Thread>): set<nat> {
    set t | t in threads && Holding(threads[t])
  }

  /** Calls between the second test of the flag and the end of their accounting. */
  predicate Busy(th: Thread) {
    th.pc.Entered? || th.pc.Counting?
  }

  /** A closer whose wait has ended. */
  predicate PastWait(th: Thread) {
    th.call.Close? && (th.pc.Drained? || th.pc.Shut? || th.pc.Reporting? || th.pc.Deleting? || th.pc.Finished?)
  }

  /** The points that belong to the kind of call. */
  predicate Legal(th: Thread) {
    if th.call.Close?
    then th.pc.Start? || th.pc.Refused? || th.pc.Loaded? || th.pc.Marked? || PastWait(th)
    else !(th.pc.Marked? || th.pc.Drained? || th.pc.Shut? || th.pc.Reporting? || th.pc.Deleting?)
  }

  /** The bytes that the listed calls of one kind transferred. */
  ghost function Total(performed: map<nat, Io>, ids: set<nat>, call: Call): nat {
    if ids == {} then 0
    else
      var t :| t in ids;
      Total(performed, ids - {t}, call)
      + (if t in performed && performed[t].call == call then performed[t].n else 0)
  }

  lemma {:induction false} TotalAdd(performed: map<nat, Io>, ids: set<nat>, call: Call, x: nat)
    requires x in ids
    ensures Total(performed, ids, call)
            == Total(performed, ids - {x}, call)
               + (if x in performed && performed[x].call == call then performed[x].n else 0)
    decreases |ids|
  {
    var t :| t in ids && Total(performed, ids, call)
                         == Total(performed, ids - {t}, call)
                            + (if t in performed && performed[t].call == call then performed[t].n else 0);
    if t != x {
      TotalAdd(performed, ids - {t}, call, x);
      TotalAdd(performed, ids - {x}, call, t);
      assert ids - {t} - {x} == ids - {x} - {t};
    }
  }

  lemma {:induction false} TotalSame(p: map<nat, Io>, q: map<nat, Io>, ids: set<nat>, call: Call)
    requires forall t <- ids :: t in p && t in q && p[t] == q[t]
    ensures Total(p, ids, call) == Total(q, ids, call)
    decreases |ids|
  {
    if ids != {} {
      var t :| t in ids;
      TotalAdd(p, ids, call, t);
      TotalAdd(q, ids, call, t);
      TotalSame(p, q, ids - {t}, call);
    }
  }

  /** Dropping calls that transferred nothing does not change a total. */
  lemma {:induction false} TotalSkipsEmpty(p: map<nat, Io>, ids: set<nat>, sub: set<nat>, call: Call)
    requires sub <= ids
    requires forall t <- ids - sub :: t in p && p[t].n == 0
    ensures Total(p, ids, call) == Total(p, sub, call)
    decreases |ids|
  {
    if ids - sub == {} {
      assert ids == sub;
    } else {
      var t :| t in ids - sub;
      TotalAdd(p, ids, call, t);
      assert sub <= ids - {t};
      TotalSkipsEmpty(p, ids - {t}, sub, call);
    }
  }

  /** The counters are the totals over the accounted calls. */
  ghost predicate Counts(b: Books) {
    && b.readBytes == Total(b.performed, b.counted, Read) % WORD
    && b.writeBytes == Total(b.performed, b.counted, Write) % WORD
    && (b.hadRead || b.hadWrite <==> b.counted != {})
    && (forall t <- b.counted :: t in b.performed && b.performed[t].n > 0)
  }

  predicate Exact(b: Books, r: Report) {
    r == Report(b.readBytes, b.writeBytes, b.hadRead || b.hadWrite)
  }

  /** What the flags say about a call at its present point, */
  predicate LocalFlags(f: Flags, th: Thread) {
    && Legal(th)
    && (th.pc.Marked? || PastWait(th) ==> f.closing)
    && (th.call.Close? && th.pc.Finished? ==> !f.registered)
  }

  /** what the history says about its I/O, */
  predicate LocalIo(b: Books, t: nat, th: Thread) {
    && (t in b.performed <==> !th.call.Close? && (th.pc.Counting? || th.pc.Leaving? || th.pc.Finished?))
    && (t in b.performed ==> b.performed[t].call == th.call)
    && (t in b.counted ==> t in b.performed && !th.pc.Counting?)
    && (t in b.performed && t !in b.counted ==>
          b.performed[t].n == if th.pc.Counting? then th.pc.n else 0)
    && (th.pc.Counting? ==> th.pc.n > 0 && t !in b.counted)
  }

  /** and about its report. */
  predicate LocalReport(b: Books, t: nat, th: Thread) {
    && (th.pc.Reporting? ==> Exact(b, th.pc.report))
    && (t in b.reports ==> PastWait(th) && Exact(b, b.reports[t]) && b.reports[t].any)
    && (th.call.Close? && (th.pc.Deleting? || th.pc.Finished?) ==> (t in b.reports <==> b.hadRead || b.hadWrite))
  }

  predicate Local(s: State, t: nat)
    requires t in s.threads
  {
    LocalFlags(s.f, s.threads[t]) && LocalIo(s.b, t, s.threads[t]) && LocalReport(s.b, t, s.threads[t])
  }

  ghost predicate AnyPastWait(threads: map<nat, Thread>) {
    exists t <- threads :: PastWait(threads[t])
  }

  /** Once a wait has ended, no call is doing or accounting for I/O. */
  ghost predicate Exclusion(s: State) {
    && s.f.wg == |Holders(s.threads)|
    && (s.f.fileClosed ==> AnyPastWait(s.threads))
    && (AnyPastWait(s.threads) ==> s.f.closing && forall u <- s.threads :: !Busy(s.threads[u]))
  }

  ghost predicate Inv(s: State) {
    && Exclusion(s) && Counts(s.b)
    && (forall t <- s.threads :: Local(s, t))
    && (forall t <- s.b.performed :: t in s.threads)
    && (forall t <- s.b.reports :: t in s.threads)
  }

  // ------------------------------------------------------------- preservation

  lemma {:induction false} HoldersChange(threads: map<nat, Thread>, t: nat, th: Thread)
    ensures |Holders(threads[t := th])| == |Holders(threads)|
            + (if Holding(th) then 1 else 0) - (if t in threads && Holding(threads[t]) then 1 else 0)
  {
    assert Holders(threads[t := th]) == if Holding(th) then Holders(threads) + {t} else Holders(threads) - {t};
  }

  lemma {:induction false} NoHolder(threads: map<nat, Thread>, u: nat)
    requires u in threads
    ensures Holding(threads[u]) ==> |Holders(threads)| > 0
  {
    if Holding(threads[u]) { assert u in Holders(threads); }
  }

  lemma {:induction false} PastWaitChange(threads: map<nat, Thread>, t: nat, th: Thread)
    requires t in threads && PastWait(threads[t]) ==> PastWait(th)
    ensures AnyPastWait(threads[t := th]) <==> AnyPastWait(threads) || PastWait(th)
  {
    var m := threads[t := th];
    if AnyPastWait(threads) {
      var u :| u in threads && PastWait(threads[u]);
      assert PastWait(m[u]);
    }
    if PastWait(th) { assert PastWait(m[t]); }
  }

  /** How one action changes the wait group, the flags and the point of its call. */
  lemma {:induction false} FlagFacts(f: Flags, b: Books, th: Thread, n: nat)
    requires Legal(th)
    ensures var f', th' := NextFlags(f, th), Thread(th.call, NextPc(f, b, th, n));
            && f'.wg == f.wg + (if Holding(th') then 1 else 0) - (if Holding(th) then 1 else 0)
            && (f.closing ==> f'.closing)
            && (!f.registered ==> !f'.registered)
            && (f'.fileClosed ==> f.fileClosed || PastWait(th))
            && (PastWait(th) ==> PastWait(th'))
            && (PastWait(th') && !PastWait(th) ==> th.pc.Marked? && f.wg == 0 && f' == f)
            && (Busy(th') && !Busy(th) ==> !f.closing)
  {
  }

  lemma {:induction false} OwnFlags(f: Flags, b: Books, th: Thread, n: nat)
    requires LocalFlags(f, th)
    ensures LocalFlags(NextFlags(f, th), Thread(th.call, NextPc(f, b, th, n)))
  {
  }

  lemma {:induction false} StepKeepsExclusion(s: State, e: Event)
    requires Exclusion(s) && forall t <- s.threads :: Local(s, t)
    ensures Exclusion(Step(s, e))
  {
    var s' := Step(s, e);
    var t := e.t;
    if e.Spawn? {
      if t !in s.threads {
        HoldersChange(s.threads, t, Thread(e.call, Start));
        PastWaitChange(s.threads, t, Thread(e.call, Start));
      }
    } else if t in s.threads {
      hide NextFlags, NextBooks, NextPc, LocalIo, LocalReport;
      var th, th' := s.threads[t], s'.threads[t];
      assert Local(s, t);
      FlagFacts(s.f, s.b, th, e.n);
      HoldersChange(s.threads, t, th');
      PastWaitChange(s.threads, t, th');
      if PastWait(th') && !PastWait(th) {
        forall u | u in s'.threads ensures !Busy(s'.threads[u]) {
          if u in s.threads { NoHolder(s.threads, u); }
        }
      }
    }
  }

  /** What one action of call t does not touch in the books. */
  lemma {:induction false} BooksFrame(b: Books, t: nat, th: Thread, n: nat)
    ensures var b' := NextBooks(b, t, th, n);
            && b'.performed.Keys <= b.performed.Keys + {t} && b'.reports.Keys <= b.reports.Keys + {t}
            && b'.performed - {t} == b.performed - {t} && b'.counted - {t} == b.counted - {t}
            && b'.reports - {t} == b.reports - {t}
            && (!th.pc.Counting? ==> b'.counted == b.counted && b'.readBytes == b.readBytes
                                     && b'.writeBytes == b.writeBytes
                                     && b'.hadRead == b.hadRead && b'.hadWrite == b.hadWrite)
  {
  }

  lemma {:induction false} ModAdd(a: nat, b: nat)
    ensures (a % WORD + b) % WORD == (a + b) % WORD
  {
  }

  lemma {:induction false} NextKeepsCounts(b: Books, t: nat, th: Thread, n: nat)
    requires Counts(b) && LocalIo(b, t, th) && Legal(th)
    ensures Counts(NextBooks(b, t, th, n))
  {
    hide Total;
    var b' := NextBooks(b, t, th, n);
    if th.pc.Counting? {
      assert b'.counted - {t} == b.counted && t in b'.counted;
      TotalAdd(b.performed, b'.counted, Read, t);
      TotalAdd(b.performed, b'.counted, Write, t);
      ModAdd(Total(b.performed, b.counted, Read), th.pc.n);
      ModAdd(Total(b.performed, b.counted, Write), th.pc.n);
    } else if th.pc.Entered? {
      TotalSame(b.performed, b'.performed, b.counted, Read);
      TotalSame(b.performed, b'.performed, b.counted, Write);
    }
  }

  lemma {:induction false} OwnIo(f: Flags, b: Books, t: nat, th: Thread, n: nat)
    requires LocalIo(b, t, th) && Legal(th)
    ensures LocalIo(NextBooks(b, t, th, n), t, Thread(th.call, NextPc(f, b, th, n)))
  {
  }

  lemma {:induction false} OwnReport(f: Flags, b: Books, t: nat, th: Thread, n: nat)
    requires LocalReport(b, t, th) && Legal(th)
    ensures LocalReport(NextBooks(b, t, th, n), t, Thread(th.call, NextPc(f, b, th, n)))
  {
  }

  /** Another call's facts survive, because a report freezes the counters. */
  lemma {:induction false} OtherLocal(s: State, t: nat, n: nat, u: nat)
    requires t in s.threads && u in s.threads && u != t && Local(s, u) && Legal(s.threads[t])
    requires PastWait(s.threads[u]) ==> !Busy(s.threads[t])
    ensures Local(Step(s, Move(t, n)), u)
  {
    var th := s.threads[t];
    var b' := NextBooks(s.b, t, th, n);
    FlagFacts(s.f, s.b, th, n);
    BooksFrame(s.b, t, th, n);
    hide NextFlags, NextBooks, NextPc;
    assert u in b'.performed - {t} <==> u in s.b.performed - {t};
    assert u in b'.reports - {t} <==> u in s.b.reports - {t};
    assert u in b'.counted - {t} <==> u in s.b.counted - {t};
    if u in s.b.performed { assert (b'.performed - {t})[u] == (s.b.performed - {t})[u]; }
    if u in s.b.reports { assert (b'.reports - {t})[u] == (s.b.reports - {t})[u]; }
  }

  lemma {:induction false} StepKeepsInv(s: State, e: Event)
    requires Inv(s)
    ensures Inv(Step(s, e))
  {
    StepKeepsExclusion(s, e);
    var s' := Step(s, e);
    var t := e.t;
    if e.Spawn? {
      forall u | u in s'.threads ensures Local(s', u) {
        if u in s.threads { assert Local(s, u); }
      }
    } else if t in s.threads {
      var th := s.threads[t];
      assert Local(s, t);
      hide NextFlags, NextBooks, NextPc, Exclusion, Counts, LocalIo, LocalReport;
      NextKeepsCounts(s.b, t, th, e.n);
      BooksFrame(s.b, t, th, e.n);
      forall u | u in s'.threads ensures Local(s', u) {
        if u == t {
          OwnFlags(s.f, s.b, th, e.n);
          OwnIo(s.f, s.b, t, th, e.n);
          OwnReport(s.f, s.b, t, th, e.n);
        } else {
          QuietAfterWait(s, u, t);
          OtherLocal(s, t, e.n, u);
        }
      }
    }
  }

  lemma {:induction false} QuietAfterWait(s: State, u: nat, t: nat)
    requires Exclusion(s) && u in s.threads && t in s.threads
    ensures PastWait(s.threads[u]) ==> !Busy(s.threads[t])
  {
  }

  lemma {:induction false} RunKeepsInv(schedule: seq<Event>)
    ensures Inv(Run(schedule))
  {
    if |schedule| == 0 {
      assert Holders(Initial.threads) == {};
    } else {
      RunKeepsInv(schedule[..|schedule| - 1]);
      StepKeepsInv(Run(schedule[..|schedule| - 1]), schedule[|schedule| - 1]);
    }
  }

  // ------------------------------------------------------------- main results

  /** In no schedule does a call that is about to do I/O find the file closed. */
  lemma {:induction false} NoIoAfterClose(schedule: seq<Event>, t: nat)
    ensures var s := Run(schedule);
            t in s.threads && s.threads[t].pc.Entered? ==> !s.f.fileClosed
  {
    RunKeepsInv(schedule);
  }

  /** Every report of the close callback, by whichever closer, equals the bytes
      transferred by all I/O of the whole schedule, before or after it, modulo the
      counter width; and a finished closer reported exactly when some I/O moved a byte. */
  lemma {:induction false} ReportsAreExact(schedule: seq<Event>, t: nat)
    ensures var b := Run(schedule).b; t in b.reports ==>
              && b.reports[t].readBytes == Total(b.performed, b.performed.Keys, Read) % WORD
              && b.reports[t].writeBytes == Total(b.performed, b.performed.Keys, Write) % WORD
    ensures var s := Run(schedule); t in s.threads && s.threads[t] == Thread(Close, Finished) ==>
              (t in s.b.reports <==> exists u <- s.b.performed :: s.b.performed[u].n > 0)
  {
    RunKeepsInv(schedule);
    var s := Run(schedule);
    hide Run;
    if t in s.threads && PastWait(s.threads[t]) {
      forall u | u in s.b.performed.Keys - s.b.counted ensures s.b.performed[u].n == 0 {
        QuietAfterWait(s, t, u);
      }
      TotalSkipsEmpty(s.b.performed, s.b.performed.Keys, s.b.counted, Read);
      TotalSkipsEmpty(s.b.performed, s.b.performed.Keys, s.b.counted, Write);
      if s.b.counted != {} {
        var u :| u in s.b.counted;
        assert s.b.performed[u].n > 0;
      }
    }
  }

  lemma {:induction false} RunOnce(schedule: seq<Event>, e: Event)
    ensures Run(schedule + [e]) == Step(Run(schedule), e)
  {
    assert (schedule + [e])[..|schedule|] == schedule;
  }

  /** Once a close has finished, the handle is gone: a call that starts is refused. */
  lemma {:induction false} RefusedAfterClose(schedule: seq<Event>, t: nat, u: nat, n: nat)
    requires var s := Run(schedule);
             && t in s.threads && s.threads[t] == Thread(Close, Finished)
             && u in s.threads && s.threads[u].pc.Start?
    ensures var s' := Run(schedule + [Move(u, n)]); u in s'.threads && s'.threads[u].pc.Refused?
  {
    RunKeepsInv(schedule);
    RunOnce(schedule, Move(u, n));
    var s := Run(schedule);
    assert Local(s, t);
  }

  /** Whether call u has left the wait group. */
  predicate Released(s: State, u: nat) {
    u in s.threads && !Holding(s.threads[u])
  }

  /** A closer kept waiting is waiting for a call that can move on by itself and
      leaves the wait group after at most three actions of its own. */
  lemma {:induction false} WaitIsReleasable(schedule: seq<Event>, t: nat) returns (u: nat)
    requires var s := Run(schedule);
             t in s.threads && s.threads[t] == Thread(Close, Marked) && s.f.wg != 0
    ensures var s := Run(schedule); u in s.threads && Holding(s.threads[u])
    ensures Released(Run(schedule + [Move(u, 0)] + [Move(u, 0)] + [Move(u, 0)]), u)
  {
    RunKeepsInv(schedule);
    var s := Run(schedule);
    NonEmpty(Holders(s.threads));
    u :| u in Holders(s.threads);
    var e := Move(u, 0);
    RunOnce(schedule, e);
    RunOnce(schedule + [e], e);
    RunOnce(schedule + [e] + [e], e);
    assert Local(s, t) && Local(s, u);
    ThreeMoves(s, u);
  }

  lemma {:induction false} NonEmpty(s: set<nat>)
    requires |s| != 0
    ensures exists x :: x in s
  {
  }

  lemma {:induction false} ThreeMoves(s: State, u: nat)
    requires u in s.threads && Legal(s.threads[u]) && Holding(s.threads[u]) && s.f.closing
    ensures var e := Move(u, 0); Released(Step(Step(Step(s, e), e), e), u)
  {
    var e := Move(u, 0);
    var th := s.threads[u];
    var th1 := Thread(th.call, NextPc(s.f, s.b, th, 0));
    var f1, b1 := NextFlags(s.f, th), NextBooks(s.b, u, th, 0);
    var th2 := Thread(th.call, NextPc(f1, b1, th1, 0));
    var f2, b2 := NextFlags(f1, th1), NextBooks(b1, u, th1, 0);
    var th3 := Thread(th.call, NextPc(f2, b2, th2, 0));
    assert Step(s, e) == State(f1, b1, s.threads[u := th1]);
    assert Step(Step(s, e), e) == State(f2, b2, s.threads[u := th1][u := th2]);
    assert Step(Step(Step(s, e), e), e).threads[u] == th3;
  }
}

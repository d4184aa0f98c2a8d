/** Paged directory listing: the cursor of an open directory with its put-back
    buffer, and the query loop that fills one response from it. */
module DirCursor {

  /** A directory entry; statOk tells whether its attributes could be read. */
  datatype Entry = Entry(name: string, statOk: bool)

  const DOT := Entry(".", true)
  const DOTDOT := Entry("..", true)

  /** Entries whose attributes cannot be read are silently dropped. */
  function Usable(es: seq<Entry>): (r: seq<Entry>)
    ensures |r| <= |es|
  {
    if |es| == 0 then []
    else
      var r := Usable(es[..|es| - 1]);
      if es[|es| - 1].statOk then r + [es[|es| - 1]] else r
  }

  predicate AllUsable(es: seq<Entry>) {
    forall e <- es :: e.statOk
  }

  lemma {:induction false} UsableAll(es: seq<Entry>)
    ensures AllUsable(es) ==> Usable(es) == es
  {
    if |es| > 0 { UsableAll(es[..|es| - 1]); }
  }

  lemma {:induction false} UsableSplit(es: seq<Entry>, i: nat, j: nat)
    requires i <= j <= |es|
    ensures Usable(es[i..]) == Usable(es[i..j]) + Usable(es[j..])
    ensures AllUsable(es) ==> AllUsable(es[i..j])
  {
    UsableConcat(es[i..j], es[j..]);
    assert es[i..] == es[i..j] + es[j..];
  }

  lemma {:induction false} SomethingUsable(es: seq<Entry>, i: nat, j: nat)
    requires i < j <= |es| && AllUsable(es)
    ensures Usable(es[i..j]) == es[i..j] != []
  {
    UsableAll(es[i..j]);
  }

  lemma {:induction false} AllUsableFrom(es: seq<Entry>, k: nat)
    requires k <= |es|
    ensures AllUsable(es) ==> AllUsable(es[k..])
  {
  }

  lemma {:induction false} UsableConcat(a: seq<Entry>, b: seq<Entry>)
    ensures Usable(a + b) == Usable(a) + Usable(b)
  {
    if |b| == 0 {
      assert a + b == a;
    } else {
      UsableConcat(a, b[..|b| - 1]);
      assert (a + b)[..|a + b| - 1] == a + b[..|b| - 1];
    }
  }

  /** What a fresh scan of a directory delivers. */
  function FullScan(listing: seq<Entry>): seq<Entry> {
    [DOT, DOTDOT] + Usable(listing)
  }

  /** The two entries every fresh scan starts with. */
  function Dots(dirPos: nat): (r: seq<Entry>)
    ensures r == [] <==> dirPos != 0
    ensures |r| <= 2
  {
    if dirPos == 0 then [DOT, DOTDOT] else []
  }

  lemma {:induction false} Regroup(r: seq<Entry>, e: seq<Entry>, b: seq<Entry>, u: seq<Entry>)
    ensures r + [] + (e + u) == r + e + ([] + [] + u)
    ensures r + b + u == r + ([] + b + u)
  {
  }

  datatype Listing = Page(entries: seq<Entry>) | Eof | IoError

  function Min(a: nat, b: nat): nat { if a <= b then a else b }

  function AtLeastOne(n: nat): nat { if n == 0 then 1 else n }

  class OpenDir {
    const listing: seq<Entry>
    var osPos: nat
    var dirPos: nat
    var dirBuffer: seq<Entry>

    predicate Valid()
      reads this
    {
      osPos <= |listing| && (dirPos == 0 ==> dirBuffer == [] && osPos == 0)
    }

    /** Everything the cursor has still to deliver, in order. */
    function Rest(): seq<Entry>
      requires Valid()
      reads this
    {
      Dots(dirPos) + dirBuffer + Usable(listing[osPos..])
    }

    constructor (listing: seq<Entry>)
      ensures Valid() && this.listing == listing && Rest() == FullScan(listing)
      ensures osPos == 0 && dirPos == 0 && dirBuffer == []
    {
      this.listing := listing;
      osPos, dirPos, dirBuffer := 0, 0, [];
    }

    /** What a call starts from: a fresh scan when it restarts. */
    function Before(restart: bool): seq<Entry>
      requires Valid()
      reads this
    {
      if restart then FullScan(listing) else Rest()
    }

    /** How much there is left to read, counting entries that will be dropped. */
    function Left(): nat
      requires Valid()
      reads this
    {
      |Dots(dirPos)| + |dirBuffer| + (|listing| - osPos)
    }

    function LeftBefore(restart: bool): nat
      requires Valid()
      reads this
    {
      if restart then 2 + |listing| else Left()
    }

    /** A fresh scan reads the attributes of the directory first; the operating system
        is asked for entries when the buffer does not fill the page. */
    predicate Fails(restart: bool, max: nat, attrFails: bool, osFails: bool)
      reads this
    {
      || ((restart || dirPos == 0) && attrFails)
      || (osFails && (restart || |dirBuffer| < max))
    }

    /** Only what the operating system has not delivered yet is left. */
    predicate Drained(restart: bool)
      reads this
    {
      !restart && dirPos != 0 && dirBuffer == []
    }

    /** The operating system's directory read: at least one entry and no more than
        asked for or left; nothing only at the end. */
    method OsRead(max: nat, osCount: nat) returns (entries: seq<Entry>)
      requires Valid() && max > 0
      modifies `osPos
      ensures old(osPos) <= osPos <= |listing| && |entries| <= max
      ensures entries == listing[old(osPos)..osPos]
      ensures Usable(listing[old(osPos)..]) == Usable(entries) + Usable(listing[osPos..])
      ensures entries == [] <==> old(osPos) == |listing|
      ensures |entries| <= AtLeastOne(osCount)
      ensures AllUsable(listing) ==> AllUsable(entries)
      ensures osCount >= max ==> |entries| == Min(max, |listing| - old(osPos))
    {
      hide Usable, AllUsable;
      var n := Min(Min(max, |listing| - osPos), AtLeastOne(osCount));
      entries := listing[osPos..osPos + n];
      UsableSplit(listing, osPos, osPos + n);
      osPos := osPos + n;
    }

    /** One read of at most max entries plus the dot entries. The operating system
        may fail without moving; a failure loses the buffered entries. */
    method ReadDir(restart: bool, max: nat, osCount: nat, attrFails: bool, osFails: bool) returns (r: Listing)
      requires Valid() && max > 0
      modifies this
      ensures Valid()
      ensures r.IoError? <==> old(Fails(restart, max, attrFails, osFails))
      ensures r.Eof? <==> !r.IoError? && old(Drained(restart)) && old(osPos) == |listing|
      ensures r.Eof? ==> old(Before(restart)) == [] && Rest() == [] && dirPos == 1
      ensures r.Page? ==>
                && old(Before(restart)) == r.entries + Rest() && dirPos == 1
                && |r.entries| <= max + 2
                && osPos <= (if restart then 0 else old(osPos)) + AtLeastOne(osCount)
                && (restart || |old(dirBuffer)| < max ==> dirBuffer == [])
                && (r.entries == [] ==> old(Drained(restart)) && old(osPos) < osPos)
                && (old(Drained(restart)) ==> old(osPos) <= osPos && r.entries == Usable(listing[old(osPos)..osPos]))
                && |r.entries| + Left() <= old(LeftBefore(restart))
                && (r.entries == [] ==> Left() < old(LeftBefore(restart)))
                && (AllUsable(listing) && osCount >= max ==> |r.entries| >= Min(max, |old(Before(restart))|))
      ensures r.IoError? ==>
                var lost := if restart then [] else old(dirBuffer);
                && osPos == (if restart then 0 else old(osPos)) && dirPos == (if restart then 0 else old(dirPos))
                && Rest() == Dots(dirPos) + Usable(listing[osPos..])
                && old(Before(restart)) == Dots(dirPos) + lost + Usable(listing[osPos..])
    {
      hide Usable, AllUsable, FullScan, Dots;
      if restart {
        Rewind();
      }
      r := ReadOn(max, osCount, attrFails, osFails);
    }

    /** Back to the start of the directory; what was buffered is dropped. */
    method Rewind()
      requires Valid()
      modifies this
      ensures Valid() && osPos == 0 && dirPos == 0 && dirBuffer == []
      ensures Rest() == FullScan(listing) && Left() == 2 + |listing|
    {
      osPos, dirPos, dirBuffer := 0, 0, [];
      assert listing[0..] == listing;
    }

    /** The read from where the cursor is. */
    method ReadOn(max: nat, osCount: nat, attrFails: bool, osFails: bool) returns (r: Listing)
      requires Valid() && max > 0
      modifies this
      ensures Valid()
      ensures r.IoError? <==> old(Fails(false, max, attrFails, osFails))
      ensures r.Eof? <==> !r.IoError? && old(Drained(false)) && old(osPos) == |listing|
      ensures r.Eof? ==> old(Rest()) == [] && Rest() == [] && dirPos == 1
      ensures r.Page? ==>
                && old(Rest()) == r.entries + Rest() && dirPos == 1
                && |r.entries| <= max + 2
                && osPos <= old(osPos) + AtLeastOne(osCount)
                && (|old(dirBuffer)| < max ==> dirBuffer == [])
                && (r.entries == [] ==> old(Drained(false)) && old(osPos) < osPos)
                && (old(Drained(false)) ==> old(osPos) <= osPos && r.entries == Usable(listing[old(osPos)..osPos]))
                && |r.entries| + Left() <= old(Left())
                && (r.entries == [] ==> Left() < old(Left()))
                && (AllUsable(listing) && osCount >= max ==> |r.entries| >= Min(max, |old(Rest())|))
      ensures r.IoError? ==>
                && osPos == old(osPos) && dirPos == old(dirPos)
                && Rest() == Dots(dirPos) + Usable(listing[osPos..])
    {
      hide Usable, AllUsable, Dots;
      if dirPos == 0 && attrFails {
        return IoError;
      }
      var results, left := Drain(max);
      label D:
      if left <= 0 {
        dirPos := 1;
        Regroup(results, [], dirBuffer, Usable(listing[osPos..]));
        return Page(results);
      }
      if osFails {
        return IoError;
      }
      r := Extend(results, left, osCount);
      Regroup(results, [], [], Usable(listing[old@D(osPos)..]));
    }

    /** Asks the operating system for the entries that are missing to a page. */
    method Extend(results: seq<Entry>, left: nat, osCount: nat) returns (r: Listing)
      requires Valid() && left > 0 && dirBuffer == []
      modifies `osPos, `dirPos
      ensures Valid() && dirPos == 1 && !r.IoError?
      ensures r.Eof? <==> results == [] && old(osPos) == |listing|
      ensures r.Eof? ==> Rest() == [] && Usable(listing[old(osPos)..]) == []
      ensures r.Page? ==>
                && old(osPos) <= osPos && r.entries == results + Usable(listing[old(osPos)..osPos])
                && r.entries + Rest() == results + Usable(listing[old(osPos)..])
                && (r.entries == [] ==> old(osPos) < osPos)
                && osPos <= old(osPos) + AtLeastOne(osCount)
                && |r.entries| <= |results| + left && |r.entries| <= |results| + osPos - old(osPos)
                && (AllUsable(listing) ==> |Usable(listing[old(osPos)..])| == |listing| - old(osPos))
                && (AllUsable(listing) && osCount >= left ==>
                      |r.entries| == |results| + Min(left, |listing| - old(osPos)))
    {
      hide Usable, AllUsable;
      UsableAll(listing[osPos..]);
      AllUsableFrom(listing, osPos);
      var entries := OsRead(left, osCount);
      UsableAll(entries);
      Regroup(results, Usable(entries), [], Usable(listing[osPos..]));
      dirPos := 1;
      if |entries| == 0 && |results| == 0 {
        UsableAll([]);
        return Eof;
      }
      return Page(results + Usable(entries));
    }

    /** Collects the dot entries of a fresh scan and buffered entries; left is how
        many more to ask the operating system for. */
    method Drain(max: nat) returns (results: seq<Entry>, left: int)
      requires Valid() && max > 0
      modifies `dirBuffer
      ensures Dots(dirPos) + old(dirBuffer) == results + dirBuffer
      ensures |Dots(dirPos)| + |old(dirBuffer)| == |results| + |dirBuffer|
      ensures results == [] <==> dirPos != 0 && old(dirBuffer) == []
      ensures left <= 0 <==> |old(dirBuffer)| >= max
      ensures left <= 0 ==> max <= |results| <= max + 2
      ensures left > 0 ==> dirBuffer == [] && left <= max && |results| + left <= max + 2 && |results| + left >= max
    {
      results := Dots(dirPos);
      left := max;
      if |dirBuffer| > 0 {
        if |dirBuffer| <= left {
          results := results + dirBuffer;
          dirBuffer := [];
        } else {
          results := results + dirBuffer[..left];
          dirBuffer := dirBuffer[left..];
          left := 0;
          return;
        }
        left := left - |results|;
      }
    }

    /** Entries that did not fit are delivered first by the next read. */
    method PutBack(entries: seq<Entry>)
      requires Valid() && dirPos != 0
      modifies this
      ensures Valid() && Rest() == entries + old(Rest()) && dirPos == old(dirPos) && osPos == old(osPos)
      ensures Left() == |entries| + old(Left()) 
      ensures old(dirBuffer) == [] ==> dirBuffer == entries
    {
      if |entries| == 0 {
        return;
      }
      assert entries + [] == entries;
      dirBuffer := entries + dirBuffer;
    }

    /** Answers one query from one page of the directory. A failure loses what was
        put back. */
    method Query(q: Request, osCount: nat, attrFails: bool, osFails: bool) returns (a: Answer)
      requires Valid() && q.Sizes()
      modifies this
      ensures Valid()
      ensures Delivers(q, old(Before(q.restart)), a, Rest())
      ensures a.status.AccessDenied? <==> old(Fails(q.restart, 1000, attrFails, osFails))
      ensures a.status.AccessDenied? ==>
                && Rest() == Dots(dirPos) + Usable(listing[osPos..])
                && (Rest() == old(Before(q.restart)) <==> q.restart || old(dirBuffer) == [])
                && (dirPos == 0 <==> q.restart || old(dirPos) == 0)
      ensures !a.status.AccessDenied? ==>
                && dirPos == 1 && osPos <= (if q.restart then 0 else old(osPos)) + AtLeastOne(osCount)
                && (q.restart || |old(dirBuffer)| < 1000 ==> dirBuffer == [] || Full(q, a, dirBuffer))
      ensures a.status.NoMoreFiles? <==>
                !a.status.AccessDenied? && old(Drained(q.restart)) && old(osPos) == |listing|
      ensures q.All() ==> (a.status.NoSuchFile? <==>
                && !a.status.AccessDenied? && !a.status.NoMoreFiles?
                && old(Drained(q.restart)) && old(osPos) < osPos && Usable(listing[old(osPos)..osPos]) == [])
      ensures a.status.Success? || a.status.NoSuchFile? ==> Left() < old(LeftBefore(q.restart))
      ensures (a.status.Success? || a.status.NoSuchFile?) && AllUsable(listing) && osCount >= 1000 ==>
                Full(q, a, Rest())
                || |old(Before(q.restart))| - |Rest()| >= Min(1000, |old(Before(q.restart))|)
    {
      hide Usable, AllUsable, Delivers, Full;
      ghost var before := Before(q.restart);
      var dir := ReadDir(q.restart, 1000, osCount, attrFails, osFails);
      match dir
      case Eof =>
        a := Answer(NoMoreFiles, []);
        EmptyAnswers(q, before, Rest());
      case IoError =>
        a := Answer(AccessDenied, []);
        EmptyAnswers(q, before, Rest());
        LostIff(Dots(dirPos), if q.restart then [] else old(dirBuffer), Usable(listing[osPos..]));
      case Page(page) =>
        ghost var after := Rest();
        var items, unconsumed := Fill(q, page);
        PutBack(unconsumed);
        a := Answer(if |items| > 0 then Success else NoSuchFile, items);
        PageAnswer(q, before, page, items, unconsumed, after);
    }

    /** With everything selected and no failure, an answer carries all it consumed, and
        at least one entry as long as there is one. The one exception is a page in
        which no entry has readable attributes. */
    method QueryAll(q: Request, osCount: nat) returns (a: Answer)
      requires Valid() && q.Sizes() && q.All()
      modifies this
      ensures Valid()
      ensures old(Before(q.restart)) == a.items + Rest()
      ensures a.status.Success? <==> a.items != []
      ensures a.status.NoMoreFiles? <==> old(Drained(q.restart)) && old(osPos) == |listing|
      ensures a.status.NoMoreFiles? ==> old(Before(q.restart)) == [] && Rest() == []
      ensures a.status.NoSuchFile? <==>
                old(Drained(q.restart)) && old(osPos) < osPos && Usable(listing[old(osPos)..osPos]) == []
      ensures !a.status.AccessDenied? && dirPos == 1 && (q.single ==> |a.items| <= 1)
      ensures osPos <= (if q.restart then 0 else old(osPos)) + AtLeastOne(osCount)
      ensures q.restart || |old(dirBuffer)| < 1000 ==> dirBuffer == [] || Full(q, a, dirBuffer)
      ensures AllUsable(listing) ==>
                && (a.status.Success? || a.status.NoMoreFiles?)
                && (a.status.NoMoreFiles? <==> old(Before(q.restart)) == [])
    {
      hide Usable, AllUsable, Delivers, Full, Min, FullScan, Dots;
      ghost var before := Before(q.restart);
      UsableAll(listing[osPos..]);
      AllUsableFrom(listing, osPos);
      a := Query(q, osCount, false, false);
      AllTaken(q, before, a, Rest());
      if a.status.NoSuchFile? && AllUsable(listing) {
        SomethingUsable(listing, old(osPos), osPos);
      }
    }

    /** A client that queries until it is told that there are no more files, with any
        buffer sizes, single-entry flags and short reads. It finds exactly what is
        selected, once and in order; with everything selected and readable, every
        answer before the last one carries entries. */
    method Enumerate(select: Entry -> bool, size: Entry -> nat, restart: bool,
                     limits: nat -> nat, singles: nat -> bool, counts: nat -> nat)
      returns (answers: seq<Answer>, found: seq<Entry>, ghost run: seq<Exchange>)
      requires Valid() && forall e :: size(e) > 0
      modifies this
      ensures Valid() && Rest() == []
      ensures Scan(select, old(Before(restart)), run) && Answers(run) == answers
      ensures |answers| > 0 && answers[|answers| - 1].status.NoMoreFiles?
      ensures GoOn(answers[..|answers| - 1], (forall e :: select(e)) && AllUsable(listing))
      ensures found == Returned(run) == Filter(select, old(Before(restart)))
      ensures (forall e :: select(e)) ==> found == old(Before(restart))
    {
      hide Usable, AllUsable, Delivers, Full, Min, Scan, Returned, Filter, Rest, Left, GoOn;
      answers, found, run := [], [], [];
      ghost var start, all := Before(restart), (forall e :: select(e)) && AllUsable(listing);
      ScanStart(select, start);
      GoOnSnoc([], Answer(NoMoreFiles, []), all);
      var again, done := restart, false;
      while !done
        invariant Valid() && (!done ==> Before(again) == LeftAfter(start, run))
        invariant Scan(select, start, run) && Answers(run) == answers && found == Returned(run)
        invariant |run| == |answers| && (done ==> |answers| > 0 && answers[|answers| - 1].status.NoMoreFiles?)
        invariant done ==> !again && Rest() == []
        invariant GoOn(if done then answers[..|answers| - 1] else answers, all)
        decreases !done, LeftBefore(again)
      {
        var q := Request(again, singles(|answers|), limits(|answers|), select, size);
        ghost var before, from := Before(again), osPos;
        var a := Query(q, counts(|answers|), false, false);
        DeliversFacts(q, before, a, Rest());
        if a.status.NoSuchFile? && all {
          SomethingUsable(listing, from, osPos);
        }
        GoOnSnoc(answers, a, all);
        RunSnoc(select, start, run, Exchange(q, a, Rest()));
        answers, found, run := answers + [a], found + a.items, run + [Exchange(q, a, Rest())];
        again, done := false, a.status.NoMoreFiles?;
      }
      ScanDeliversPrefix(select, start, run);
      if forall e :: select(e) {
        FilterAll(select, start);
      }
    }
  }

  lemma {:induction false} LostIff(dots: seq<Entry>, lost: seq<Entry>, unread: seq<Entry>)
    ensures dots + unread == dots + lost + unread <==> lost == []
  {
    if lost == [] {
      assert dots + lost == dots;
    } else {
      assert |dots + unread| < |dots + lost + unread|;
    }
  }

  lemma {:induction false} EmptyAnswers(q: Request, before: seq<Entry>, rest: seq<Entry>)
    ensures before == rest == [] ==> Delivers(q, before, Answer(NoMoreFiles, []), rest)
    ensures Delivers(q, before, Answer(AccessDenied, []), rest)
  {
  }

  lemma {:induction false} DeliversFacts(q: Request, before: seq<Entry>, a: Answer, rest: seq<Entry>)
    requires Delivers(q, before, a, rest)
    ensures a.status.Success? ==> a.items != []
    ensures a.status.NoMoreFiles? ==> before == rest == []
  {
  }

  lemma {:induction false} AllTaken(q: Request, before: seq<Entry>, a: Answer, rest: seq<Entry>)
    requires q.All() && Delivers(q, before, a, rest) && !a.status.AccessDenied?
    ensures a.status.Success? <==> a.items != []
    ensures before == a.items + rest
    ensures a.status.NoMoreFiles? ==> before == [] && rest == []
    ensures q.single ==> |a.items| <= 1
  {
    if !a.status.NoMoreFiles? {
      SelectedAll(q, before[..|before| - |rest|]);
    }
  }

  /** A page answered by Fill, with the unconsumed entries put back. */
  lemma {:induction false} PageAnswer(q: Request, before: seq<Entry>, page: seq<Entry>,
                                      items: seq<Entry>, unconsumed: seq<Entry>, after: seq<Entry>)
    requires before == page + after
    requires |unconsumed| <= |page| && page[|page| - |unconsumed|..] == unconsumed
    requires items == Selected(q, page[..|page| - |unconsumed|])
    requires Within(q, items) && (q.single ==> |items| <= 1)
    requires unconsumed != [] ==> Full(q, Answer(Success, items), unconsumed)
    ensures var a, rest := Answer(if |items| > 0 then Success else NoSuchFile, items), unconsumed + after;
            && Delivers(q, before, a, rest)
            && (unconsumed != [] ==> Full(q, a, rest) && Full(q, a, unconsumed))
            && (unconsumed == [] ==> |before| - |rest| == |page|)
  {
    hide Selected, Within, TotalSize;
    TakenPrefix(before, page, unconsumed, after);
  }

  /** Fills one response from a page: skips entries the query does not select, stops
      before the first selected entry that would exceed the buffer (never before the
      first one), or after one entry if only one was asked for. */
  method Fill(q: Request, page: seq<Entry>) returns (items: seq<Entry>, unconsumed: seq<Entry>)
    requires q.Sizes()
    ensures |unconsumed| <= |page| && page[|page| - |unconsumed|..] == unconsumed
    ensures items == Selected(q, page[..|page| - |unconsumed|])
    ensures Within(q, items) && (q.single ==> |items| <= 1)
    ensures |page| > 0 ==> |unconsumed| < |page|
    ensures unconsumed != [] ==> Full(q, Answer(Success, items), unconsumed)
  {
    items, unconsumed := [], [];
    assert Selected(q, []) == [] && TotalSize(q, []) == 0;
    var maxOut := q.OutputLimit();
    var acc := 0;
    assert page[..0] == [];
    hide Selected, TotalSize;
    for i := 0 to |page|
      invariant items == Selected(q, page[..i]) && acc == TotalSize(q, items)
      invariant acc == 0 <==> items == []
      invariant unconsumed == [] && Within(q, items) && (q.single ==> items == [])
    {
      var d := page[i];
      SelectedSnoc(q, page, i);
      if q.select(d) {
        if acc > 0 && acc + q.size(d) > maxOut {
          unconsumed := page[i..];
          assert page[..|page| - |unconsumed|] == page[..i];
          return;
        }
        TotalSnoc(q, items, d);
        items := items + [d];
        acc := acc + q.size(d);
        if q.single {
          if i + 1 < |page| {
            unconsumed := page[i + 1..];
          }
          assert page[..|page| - |unconsumed|] == page[..i + 1];
          return;
        }
      }
    }
    assert page[..|page|] == page;
  }

  lemma {:induction false} SelectedSnoc(q: Request, page: seq<Entry>, i: nat)
    requires i < |page|
    ensures Selected(q, page[..i + 1]) == Selected(q, page[..i]) + (if q.select(page[i]) then [page[i]] else [])
  {
    assert page[..i + 1][..i] == page[..i];
  }

  lemma {:induction false} TotalSnoc(q: Request, items: seq<Entry>, d: Entry)
    ensures TotalSize(q, items + [d]) == TotalSize(q, items) + q.size(d)
  {
    assert (items + [d])[..|items|] == items;
  }

  lemma {:induction false} TakenPrefix(before: seq<Entry>, page: seq<Entry>, unconsumed: seq<Entry>, after: seq<Entry>)
    requires before == page + after
    requires |unconsumed| <= |page| && page[|page| - |unconsumed|..] == unconsumed
    ensures var rest := unconsumed + after;
            && before[..|before| - |rest|] == page[..|page| - |unconsumed|]
            && before[|before| - |rest|..] == rest
  {
  }

  // ------------------------------------------------------------------ queries

  /** A query: select combines the pattern with the hiding of metadata files, size
      is the encoded size of an entry in the requested information class. */
  datatype Request = Request(restart: bool, single: bool, outputLength: nat,
                             select: Entry -> bool, size: Entry -> nat)
  {
    /** Every encoded entry takes room. */
    ghost predicate Sizes() {
      forall e :: size(e) > 0
    }

    /** Every name matches and nothing is hidden. */
    ghost predicate All() {
      forall e :: select(e)
    }

    function OutputLimit(): nat {
      if outputLength == 0 then 65536 else outputLength
    }
  }

  datatype Status = Success | NoSuchFile | NoMoreFiles | AccessDenied

  datatype Answer = Answer(status: Status, items: seq<Entry>)

  function Selected(q: Request, es: seq<Entry>): (r: seq<Entry>)
    ensures |r| <= |es|
  {
    if |es| == 0 then []
    else
      var r := Selected(q, es[..|es| - 1]);
      if q.select(es[|es| - 1]) then r + [es[|es| - 1]] else r
  }

  function TotalSize(q: Request, es: seq<Entry>): nat {
    if |es| == 0 then 0 else TotalSize(q, es[..|es| - 1]) + q.size(es[|es| - 1])
  }

  /** The buffer limit, which a first entry may exceed. */
  predicate Within(q: Request, items: seq<Entry>) {
    TotalSize(q, items) <= q.OutputLimit() || |items| <= 1
  }

  /** The response could take no more: it is the one entry asked for, or the next
      entry is selected and would not fit. */
  predicate Full(q: Request, a: Answer, rest: seq<Entry>) {
    || (q.single && |a.items| == 1)
    || (|rest| > 0 && q.select(rest[0]) && TotalSize(q, a.items) + q.size(rest[0]) > q.OutputLimit())
  }

  /** How an answer relates what was left before to what is left after: the entries
      that went away are a prefix, and the answer is exactly its selected part. */
  predicate Delivers(q: Request, before: seq<Entry>, a: Answer, rest: seq<Entry>) {
    match a.status
    case NoMoreFiles => a.items == [] && rest == before == []
    case AccessDenied => a.items == []
    case _ =>
      && |rest| <= |before| && before[|before| - |rest|..] == rest
      && a.items == Selected(q, before[..|before| - |rest|])
      && (a.status.Success? <==> a.items != [])
      && Within(q, a.items) && (q.single ==> |a.items| <= 1)
  }

  // ---------------------------------------------------------------- whole runs

  /** One answered query and what the cursor had left afterwards. */
  datatype Exchange = Exchange(q: Request, a: Answer, rest: seq<Entry>)

  /** A run of queries on one handle, without input errors, that continue a scan
      with the same selection. */
  ghost predicate Scan(select: Entry -> bool, start: seq<Entry>, run: seq<Exchange>) {
    |run| > 0 ==>
      var x, prev := run[|run| - 1], run[..|run| - 1];
      && Scan(select, start, prev)
      && x.q.select == select && !x.a.status.AccessDenied?
      && Delivers(x.q, LeftAfter(start, prev), x.a, x.rest)
  }

  function LeftAfter(start: seq<Entry>, run: seq<Exchange>): seq<Entry> {
    if |run| == 0 then start else run[|run| - 1].rest
  }

  function Returned(run: seq<Exchange>): seq<Entry> {
    if |run| == 0 then [] else Returned(run[..|run| - 1]) + run[|run| - 1].a.items
  }

  /** What the client has seen of a run. */
  function Answers(run: seq<Exchange>): (r: seq<Answer>)
    ensures |r| == |run|
  {
    if |run| == 0 then [] else Answers(run[..|run| - 1]) + [run[|run| - 1].a]
  }

  /** Answers after which the client goes on asking; all with entries in them if so
      required. */
  predicate GoOn(answers: seq<Answer>, filled: bool) {
    forall a <- answers ::
      && (a.status.Success? || a.status.NoSuchFile?)
      && (filled ==> a.status.Success? && a.items != [])
  }

  lemma {:induction false} GoOnSnoc(answers: seq<Answer>, a: Answer, filled: bool)
    requires GoOn(answers, filled)
    ensures (answers + [a])[..|answers|] == answers
    ensures GoOn([], filled) && (GoOn([a], filled) ==> GoOn(answers + [a], filled))
    ensures (a.status.Success? && a.items != []) || (a.status.NoSuchFile? && !filled) ==> GoOn([a], filled)
  {
  }

  /** The selected part of a sequence, in order. */
  function Filter(select: Entry -> bool, es: seq<Entry>): seq<Entry> {
    if |es| == 0 then []
    else Filter(select, es[..|es| - 1]) + (if select(es[|es| - 1]) then [es[|es| - 1]] else [])
  }

  lemma {:induction false} SelectedIsFilter(q: Request, es: seq<Entry>)
    ensures Selected(q, es) == Filter(q.select, es)
  {
    if |es| > 0 { SelectedIsFilter(q, es[..|es| - 1]); }
  }

  lemma {:induction false} FilterConcat(select: Entry -> bool, a: seq<Entry>, b: seq<Entry>)
    ensures Filter(select, a + b) == Filter(select, a) + Filter(select, b)
  {
    if |b| == 0 {
      assert a + b == a;
    } else {
      FilterConcat(select, a, b[..|b| - 1]);
      assert (a + b)[..|a + b| - 1] == a + b[..|b| - 1];
    }
  }

  lemma {:induction false} SuffixOfSuffix(s: seq<Entry>, t: seq<Entry>, u: seq<Entry>)
    requires |t| <= |s| && s[|s| - |t|..] == t
    requires |u| <= |t| && t[|t| - |u|..] == u
    ensures s[|s| - |u|..] == u
    ensures s[..|s| - |u|] == s[..|s| - |t|] + t[..|t| - |u|]
  {
  }

  /** Whatever the page sizes, single-entry flags and short reads: what a scan has
      returned so far is the selected part of a prefix of the scan, and the rest is
      still to come. When it ends, everything has been returned exactly once. */
  lemma {:induction false} ScanDeliversPrefix(select: Entry -> bool, start: seq<Entry>, run: seq<Exchange>)
    requires Scan(select, start, run)
    ensures var rest := LeftAfter(start, run);
            && |rest| <= |start| && start[|start| - |rest|..] == rest
            && Returned(run) == Filter(select, start[..|start| - |rest|])
    ensures |run| > 0 && run[|run| - 1].a.status.NoMoreFiles? ==> Returned(run) == Filter(select, start)
  {
    hide Filter, Returned, Scan, Delivers;
    if |run| == 0 {
      NothingYet(select, start, run);
    } else {
      var prev, x := run[..|run| - 1], run[|run| - 1];
      ScanSnoc(select, start, run);
      ScanDeliversPrefix(select, start, prev);
      ScanStep(select, start, LeftAfter(start, prev), x, Returned(prev));
      ReturnedSnoc(run);
    }
  }

  lemma {:induction false} NothingYet(select: Entry -> bool, start: seq<Entry>, run: seq<Exchange>)
    requires |run| == 0
    ensures Returned(run) == Filter(select, start[..0])
  {
  }

  lemma {:induction false} ScanSnoc(select: Entry -> bool, start: seq<Entry>, run: seq<Exchange>)
    requires |run| > 0
    ensures var x, prev := run[|run| - 1], run[..|run| - 1];
            Scan(select, start, run) <==>
              && Scan(select, start, prev)
              && x.q.select == select && !x.a.status.AccessDenied?
              && Delivers(x.q, LeftAfter(start, prev), x.a, x.rest)
  {
    hide Delivers;
  }

  lemma {:induction false} ScanStart(select: Entry -> bool, start: seq<Entry>)
    ensures Scan(select, start, []) && Returned([]) == []
  {
  }

  lemma {:induction false} RunSnoc(select: Entry -> bool, start: seq<Entry>, prev: seq<Exchange>, x: Exchange)
    requires Scan(select, start, prev) && x.q.select == select && !x.a.status.AccessDenied?
    requires Delivers(x.q, LeftAfter(start, prev), x.a, x.rest)
    ensures Scan(select, start, prev + [x]) && LeftAfter(start, prev + [x]) == x.rest
    ensures Returned(prev + [x]) == Returned(prev) + x.a.items
    ensures Answers(prev + [x]) == Answers(prev) + [x.a]
  {
    hide Delivers;
    assert (prev + [x])[..|prev|] == prev;
  }

  lemma {:induction false} ReturnedSnoc(run: seq<Exchange>)
    requires |run| > 0
    ensures Returned(run) == Returned(run[..|run| - 1]) + run[|run| - 1].a.items
  {
  }

  /** One more answer: the prefix grows by what it took. */
  lemma {:induction false} ScanStep(select: Entry -> bool, start: seq<Entry>, before: seq<Entry>, x: Exchange, returned: seq<Entry>)
    requires |before| <= |start| && start[|start| - |before|..] == before
    requires returned == Filter(select, start[..|start| - |before|])
    requires x.q.select == select && !x.a.status.AccessDenied? && Delivers(x.q, before, x.a, x.rest)
    ensures var rest := x.rest;
      && |rest| <= |start| && start[|start| - |rest|..] == rest
      && returned + x.a.items == Filter(select, start[..|start| - |rest|])
      && (x.a.status.NoMoreFiles? ==> start[..|start| - |rest|] == start)
  {
    hide Filter, Selected, Within;
    var gone, rest := start[..|start| - |before|], x.rest;
    if !x.a.status.NoMoreFiles? {
      var chunk := before[..|before| - |rest|];
      SelectedIsFilter(x.q, chunk);
      FilterConcat(select, gone, chunk);
      SuffixOfSuffix(start, before, rest);
    }
  }

  lemma {:induction false} FilterAll(select: Entry -> bool, es: seq<Entry>)
    requires forall e :: select(e)
    ensures Filter(select, es) == es
  {
    if |es| > 0 {
      FilterAll(select, es[..|es| - 1]);
    }
  }

  lemma {:induction false} SelectedAll(q: Request, es: seq<Entry>)
    requires forall e :: q.select(e)
    ensures Selected(q, es) == es
  {
    if |es| > 0 {
      SelectedAll(q, es[..|es| - 1]);
    }
  }

  // ----------------------------------------------------------------- two inputs

  lemma {:induction false} TotalOfOnes(q: Request, es: seq<Entry>)
    requires forall e :: q.size(e) == 1
    ensures TotalSize(q, es) == |es|
  {
    if |es| > 0 {
      TotalOfOnes(q, es[..|es| - 1]);
    }
  }

  /** A client that asks for one entry, meets a failing read and then reads on to the
      end never sees the parent directory, whatever the directory holds. */
  method FailureLosesEntry(listing: seq<Entry>, osCount: nat, limits: nat -> nat, singles: nat -> bool, counts: nat -> nat)
    returns (first: Answer, second: Answer, others: seq<Entry>)
    requires DOTDOT !in listing && |listing| < 900
    ensures first == Answer(Success, [DOT]) && second.status.AccessDenied?
    ensures DOTDOT !in others && DOTDOT in FullScan(listing)
  {
    hide Usable, AllUsable, Filter, Scan, Returned, Delivers;
    var d := new OpenDir(listing);
    var every, one := (e: Entry) => true, (e: Entry) => 1;
    var q := Request(false, true, 0, every, one);
    first := d.QueryAll(q, osCount);
    FirstOfAll(first, Usable(listing), d.Rest());
    second := d.Query(q, osCount, false, true);
    UsableOnly(listing, d.osPos, DOTDOT);
    ghost var rest := d.Rest();
    var _, found, _ := d.Enumerate(every, one, false, limits, singles, counts);
    others := found;
    FilterAll(every, rest);
  }

  lemma {:induction false} FirstOfAll(a: Answer, usable: seq<Entry>, rest: seq<Entry>)
    requires a.items != [] && |a.items| <= 1 && [DOT, DOTDOT] + usable == a.items + rest
    ensures a.items == [DOT] && |rest| == |usable| + 1
  {
    assert ([DOT, DOTDOT] + usable)[0] == DOT;
  }

  lemma {:induction false} UsableOnly(es: seq<Entry>, from: nat, e: Entry)
    requires e !in es && from <= |es|
    ensures e !in Usable(es[from..])
    decreases |es|
  {
    if from < |es| {
      UsableOnly(es[..|es| - 1], from, e);
      assert es[from..][..|es[from..]| - 1] == es[..|es| - 1][from..];
    }
  }

  /** Two entries whose attributes cannot be read, delivered one by one, make a query
      for everything answer that there is no such file while an entry is left. */
  method UnreadableEntriesStall() returns (first: Answer, second: Answer, left: seq<Entry>)
    ensures first == Answer(Success, [DOT, DOTDOT]) && second == Answer(NoSuchFile, [])
    ensures left == [Entry("c", true)]
  {
    hide Usable, AllUsable, Delivers, TotalSize, Selected;
    var listing := [Entry("a", false), Entry("b", false), Entry("c", true)];
    var d := new OpenDir(listing);
    var q := Request(false, false, 0, (e: Entry) => true, (e: Entry) => 1);
    UnreadableTwo(listing, 0, 0);
    first := d.QueryAll(q, 1);
    TotalOfOnes(q, first.items);
    assert d.dirBuffer == [];
    ghost var from, rest := d.osPos, d.Rest();
    UnreadableTwo(listing, from, from);
    assert rest == [] + [] + [listing[2]] == [listing[2]];
    DotsOnly(first.items, listing[2]);
    second := d.QueryAll(q, 1);
    UnreadableTwo(listing, from, d.osPos);
    assert |d.Rest()| >= 1;
    left := d.Rest();
  }

  lemma {:induction false} DotsOnly(items: seq<Entry>, e: Entry)
    requires [DOT, DOTDOT] + [e] == items + [e]
    ensures items == [DOT, DOTDOT]
  {
    assert items == (items + [e])[..|items|];
  }

  lemma {:induction false} UnreadableTwo(es: seq<Entry>, from: nat, to: nat)
    requires |es| == 3 && !es[0].statOk && !es[1].statOk && es[2].statOk
    requires from <= to <= 2
    ensures Usable(es[from..to]) == [] && Usable(es[from..]) == [es[2]] && Usable(es) == [es[2]]
  {
    assert es[0..] == es;
    UsableSplit(es, 0, from);
    UsableSplit(es, from, to);
    UsableSplit(es, to, 2);
    assert Usable(es[2..]) == [es[2]];
  }
}

/**
 * `PDocSearchTask`: the background search over a document's pages. The
 * worker thread, the weak reference to the view and the cross-thread abort
 * flag are reduced to inputs: whether the view is still there, and which
 * of the abort checks see an abort raised by another thread.
 */
module SearchTask {
  import opened JavaLang
  import opened SearchRecords

  /** The task's state: its NUL-terminated key, the cached native key, and its flags. */
  datatype Task = Task(key: string, keyStr: Int64, aborted: bool, finished: bool, hasThread: bool)

  /** What the task asks of the view, in order. */
  datatype TaskEvent =
    | StartSearch(key: string)
    | ThreadStarted
    | ItemAdded(page: int, record: SearchRecord)
    | Posted
    | EndSearch

  /** The constructor: the query with a NUL appended, nothing cached, nothing started. */
  function NewTask(query: string): (t: Task)
    ensures |t.key| == |query| + 1 && t.key[..|query|] == query && t.key[|query|] == '\0'
    ensures t.keyStr == 0 && !t.aborted && !t.finished && !t.hasThread
  {
    Task(query + "\0", 0, false, false, false)
  }

  /**
   * `getKeyStr`: the native key string is made (here: `nativeKey`, what
   * `nativeGetStringChars` returns) only while the cache holds 0.
   */
  function GetKeyStr(t: Task, nativeKey: Int64): (r: (Task, Int64))
    ensures t.keyStr != 0 ==> r == (t, t.keyStr)
    ensures t.keyStr == 0 ==> r == (t.(keyStr := nativeKey), nativeKey)
  {
    if t.keyStr == 0 then (t.(keyStr := nativeKey), nativeKey) else (t, t.keyStr)
  }

  /** Once a non-zero key is cached, later calls return it whatever the native side would give. */
  lemma GetKeyStrCached(t: Task, first: Int64, second: Int64)
    requires first != 0 || t.keyStr != 0
    ensures var (t1, k1) := GetKeyStr(t, first);
      GetKeyStr(t1, second) == (t1, k1)
  {
  }

  /** The result of the page scan: the notifications in order and the page it stopped at. */
  datatype Scan = Scan(events: seq<TaskEvent>, stop: int)

  /**
   * The loop of `run` from page `i` on: stop at the first page where the
   * abort check is true, otherwise look the page up with `findPageCached`
   * and notify the view of a non-null record under that page's index.
   */
  function ScanPages(i: int, pageCount: int, abortSeen: int -> bool, find: int -> Option<SearchRecord>): (r: Scan)
    ensures i <= r.stop && (r.stop <= pageCount || r.stop == i)
    ensures forall p :: i <= p < r.stop ==> !abortSeen(p)
    ensures r.stop < pageCount ==> abortSeen(r.stop)
    ensures forall k :: 0 <= k < |r.events| ==>
      r.events[k].ItemAdded? && i <= r.events[k].page < r.stop && find(r.events[k].page) == Some(r.events[k].record)
    ensures forall k, l :: 0 <= k < l < |r.events| ==> r.events[k].page < r.events[l].page
    decreases pageCount - i
  {
    if i >= pageCount || abortSeen(i) then Scan([], i)
    else
      var rest := ScanPages(i + 1, pageCount, abortSeen, find);
      match find(i)
      case None => rest
      case Some(record) => Scan([ItemAdded(i, record)] + rest.events, rest.stop)
  }

  /** Every page before the stop that has a record is notified. */
  lemma {:induction false} ScanNotifiesEveryRecord(i: int, pageCount: int, abortSeen: int -> bool, find: int -> Option<SearchRecord>, p: int)
    requires i <= p < ScanPages(i, pageCount, abortSeen, find).stop && find(p).Some?
    ensures exists k :: (0 <= k < |ScanPages(i, pageCount, abortSeen, find).events|
      && ScanPages(i, pageCount, abortSeen, find).events[k] == ItemAdded(p, find(p).value))
    decreases pageCount - i
  {
    var rest := ScanPages(i + 1, pageCount, abortSeen, find);
    var r := ScanPages(i, pageCount, abortSeen, find);
    if p == i {
      assert r.events[0] == ItemAdded(p, find(p).value);
    } else {
      ScanNotifiesEveryRecord(i + 1, pageCount, abortSeen, find, p);
      var k :| 0 <= k < |rest.events| && rest.events[k] == ItemAdded(p, find(p).value);
      if find(i).Some? {
        assert r.events[k + 1] == rest.events[k];
      } else {
        assert r.events[k] == rest.events[k];
      }
    }
  }

  /**
   * `run`. Without the view nothing happens; a finished task only reports
   * the end of the search; otherwise the pages are scanned from 0 (an abort
   * already requested stops the scan at once), then the task is marked
   * finished, drops its thread and posts itself back to the view.
   */
  function Run(t: Task, viewAlive: bool, pageCount: int, abortedBy: int -> bool, find: int -> Option<SearchRecord>): (r: (Task, seq<TaskEvent>))
    ensures !viewAlive ==> r == (t, [])
    ensures viewAlive && t.finished ==> r == (t, [EndSearch])
    ensures viewAlive && !t.finished ==>
      r.0 == t.(finished := true, hasThread := false) && |r.1| >= 1 && r.1[|r.1| - 1] == Posted
      && forall k :: 0 <= k < |r.1| - 1 ==> r.1[k].ItemAdded? && 0 <= r.1[k].page < pageCount
    ensures viewAlive && !t.finished && t.aborted ==> r.1 == [Posted]
    ensures viewAlive && !t.finished ==>
      forall k :: 0 <= k < |r.1| - 1 ==>
        find(r.1[k].page) == Some(r.1[k].record) && forall q :: 0 <= q <= r.1[k].page ==> !abortedBy(q)
    ensures viewAlive && !t.finished ==>
      forall k, l :: 0 <= k < l < |r.1| - 1 ==> r.1[k].page < r.1[l].page
    ensures viewAlive && !t.finished ==>
      r.1 == ScanPages(0, pageCount, p => t.aborted || abortedBy(p), find).events + [Posted]
  {
    if !viewAlive then (t, [])
    else if t.finished then (t, [EndSearch])
    else
      var seen := p => t.aborted || abortedBy(p);
      var scan := ScanPages(0, pageCount, seen, find);
      assert forall k :: 0 <= k < |scan.events| ==> (scan.events + [Posted])[k] == scan.events[k];
      assert forall q :: 0 <= q < scan.stop ==> !seen(q) && !abortedBy(q);
      assert forall k :: 0 <= k < |scan.events| ==> scan.events[k].page < scan.stop;
      (t.(finished := true, hasThread := false), scan.events + [Posted])
  }

  /**
   * A run that no abort reaches before page `p` notifies the view of the
   * record found on `p`.
   */
  lemma RunNotifiesEveryRecord(t: Task, pageCount: int, abortedBy: int -> bool,
                               find: int -> Option<SearchRecord>, p: int)
    requires !t.finished && !t.aborted
    requires 0 <= p < pageCount && find(p).Some?
    requires forall q :: 0 <= q <= p ==> !abortedBy(q)
    ensures ItemAdded(p, find(p).value) in Run(t, true, pageCount, abortedBy, find).1
  {
    var seen := q => t.aborted || abortedBy(q);
    var scan := ScanPages(0, pageCount, seen, find);
    assert p < scan.stop by {
      if scan.stop <= p {
        assert false;
      }
    }
    ScanNotifiesEveryRecord(0, pageCount, seen, find, p);
  }

  /** A task runs its scan once: when it is run again (by the post) it only ends the search. */
  lemma RunTwiceEnds(t: Task, pageCount: int, abortedBy: int -> bool, find: int -> Option<SearchRecord>)
    requires !t.finished
    ensures var first := Run(t, true, pageCount, abortedBy, find).0;
      Run(first, true, pageCount, abortedBy, find) == (first, [EndSearch])
  {
  }

  /**
   * Without aborts, every page with a record is notified exactly in page
   * order: the scan reaches the last page.
   */
  lemma ScanWithoutAbortCoversAllPages(pageCount: nat, find: int -> Option<SearchRecord>, p: int)
    requires 0 <= p < pageCount && find(p).Some?
    ensures var scan := ScanPages(0, pageCount, _ => false, find);
      scan.stop == pageCount && ItemAdded(p, find(p).value) in scan.events
  {
    ScanNotifiesEveryRecord(0, pageCount, _ => false, find, p);
  }

  /**
   * `start`: nothing once finished or while a thread exists; otherwise the
   * view is told the search begins (when it is still there) before the
   * thread starts.
   */
  function Start(t: Task, viewAlive: bool): (r: (Task, seq<TaskEvent>))
    ensures t.finished || t.hasThread ==> r == (t, [])
    ensures !t.finished && !t.hasThread ==>
      r.0 == t.(hasThread := true) && r.1 == (if viewAlive then [StartSearch(t.key), ThreadStarted] else [ThreadStarted])
  {
    if t.finished then (t, [])
    else if t.hasThread then (t, [])
    else (t.(hasThread := true), (if viewAlive then [StartSearch(t.key)] else []) + [ThreadStarted])
  }

  /** Starting twice starts one thread. */
  lemma StartOnce(t: Task, viewAlive: bool)
    ensures var first := Start(t, viewAlive).0;
      Start(first, viewAlive) == (first, [])
  {
  }

  /** `abort`. */
  function Abort(t: Task): (r: Task)
    ensures r.aborted && r.key == t.key && r.keyStr == t.keyStr && r.finished == t.finished && r.hasThread == t.hasThread
  {
    t.(aborted := true)
  }

  /** After `abort`, `isAborted` holds, and a scan that has not yet run stops before its first page. */
  lemma AbortStopsScan(t: Task, pageCount: int, abortedBy: int -> bool, find: int -> Option<SearchRecord>)
    requires !t.finished
    ensures Abort(t).aborted
    ensures Run(Abort(t), true, pageCount, abortedBy, find).1 == [Posted]
  {
  }
}

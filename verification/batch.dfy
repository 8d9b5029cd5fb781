/** `download_all_yuhos_by_edinetcode`: the loop over the annual-report links of one
    company, with the browser's behaviour on each link given as data. */
module Batch {
  import opened Wrappers
  import opened Wareki

  /** The steps of one iteration of the download loop, in the order they run. */
  datatype Step =
    | ResetWindows   // close_all_but_first_window
    | FindLink       // get_yuho_link_by_text
    | ReadMetadata   // get_metadata_for_ylink_as_dataframe
    | OpenLink       // click_yuho_link
    | OpenHoldings   // click_holdings_section
    | SaveContent    // save_content
    | ResetAgain     // close_all_but_first_window

  /** Steps up to and including `ReadMetadata` run before `idf` is assigned. */
  predicate BeforeAssignment(st: Step) {
    st == ResetWindows || st == FindLink || st == ReadMetadata
  }

  /** A link on the search results page: its display text, the lines of the text block
      around it, and the first step, if any, at which the browser raises on it. */
  datatype Link = Link(text: string, block: seq<string>, fault: Option<Step>)

  datatype Status = SUCCESS | FAILED

  /** One metadata DataFrame (`idf`) with its status column. */
  datatype Frame = Frame(meta: Metadata, status: Status)

  datatype BatchError =
    | SearchTimeout    // no matching link appeared on the results page
    | EmptyLinkText    // `ylink.text[0]` on an empty text
    | UnboundIdf       // a failure before any `idf` was ever assigned
    | NothingToConcat  // `pd.concat([])`

  /** Annual reports start with 有; corrections (訂正) are skipped. */
  predicate IsAnnualReport(text: string) {
    |text| > 0 && text[0] == '有'
  }

  /** The links the loop visits: those whose text passes the filter, in page order. */
  function Processed(links: seq<Link>): (r: seq<Link>)
    ensures forall l :: l in r <==> l in links && IsAnnualReport(l.text)
    ensures forall l :: multiset(r)[l] == if IsAnnualReport(l.text) then multiset(links)[l] else 0
    ensures |r| <= |links|
  {
    if |links| == 0 then []
    else
      var rest := Processed(links[1..]);
      assert links == [links[0]] + links[1..];
      assert multiset(links) == multiset([links[0]]) + multiset(links[1..]);
      assert forall l :: l in links <==> l == links[0] || l in links[1..];
      if IsAnnualReport(links[0].text) then [links[0]] + rest else rest
  }

  /** The filter keeps page order: filtering a concatenation concatenates the filtered parts. */
  lemma {:induction false} ProcessedConcat(a: seq<Link>, b: seq<Link>)
    ensures Processed(a + b) == Processed(a) + Processed(b)
    decreases |a|
  {
    if |a| == 0 {
      assert a + b == b;
    } else {
      assert (a + b)[0] == a[0];
      assert (a + b)[1..] == a[1..] + b;
      ProcessedConcat(a[1..], b);
    }
  }

  /** `get_yuho_link_by_text`: the first link on the page with the given text. */
  function FirstWithText(links: seq<Link>, text: string): (r: Option<Link>)
    ensures r.Some? ==> r.value in links && r.value.text == text
    ensures r.Some? ==> exists i :: (0 <= i < |links| && links[i] == r.value
      && forall j :: 0 <= j < i ==> links[j].text != text)
    ensures r.None? <==> forall l :: l in links ==> l.text != text
  {
    if |links| == 0 then None
    else if links[0].text == text then Some(links[0])
    else
      assert forall l :: l in links <==> l == links[0] || l in links[1..];
      var r := FirstWithText(links[1..], text);
      assert r.Some? ==> exists i :: (0 <= i < |links| && links[i] == r.value
        && forall j :: 0 <= j < i ==> links[j].text != text)
      by {
        if r.Some? {
          var i :| 0 <= i < |links[1..]| && links[1..][i] == r.value
            && forall j :: 0 <= j < i ==> links[1..][j].text != text;
          assert links[i + 1] == r.value;
          forall j | 0 <= j < i + 1 ensures links[j].text != text {
            if j > 0 { assert links[j] == links[1..][j - 1]; }
          }
        }
      }
      r
  }

  /** What one iteration leaves behind: either it raised before `idf` was assigned,
      or `idf` holds fresh metadata and the iteration did or did not complete. */
  datatype Outcome = Aborted | Assigned(meta: Metadata, completed: bool)

  /** One iteration on link `p`. The metadata comes from the first link carrying
      `p`'s text, since the link is looked up again by its text. */
  function Attempt(links: seq<Link>, p: Link, parseDate: string -> Option<Date>): (o: Outcome)
    ensures o.Assigned? ==> && FirstWithText(links, p.text).Some?
                            && ExtractMetadata(FirstWithText(links, p.text).value.block, parseDate) == Success(o.meta)
    ensures p.fault.Some? && BeforeAssignment(p.fault.value) ==> o.Aborted?
    ensures o.Assigned? ==> (o.completed <==> p.fault.None?)
    ensures (p.fault.None? || !BeforeAssignment(p.fault.value))
            && FirstWithText(links, p.text).Some?
            && ExtractMetadata(FirstWithText(links, p.text).value.block, parseDate).Success?
            ==> o.Assigned?
  {
    if p.fault.Some? && BeforeAssignment(p.fault.value) then Aborted
    else
      match FirstWithText(links, p.text)
      case None => Aborted
      case Some(l) =>
        match ExtractMetadata(l.block, parseDate)
        case Failure(_) => Aborted
        case Success(m) => Assigned(m, p.fault.None?)
  }

  /** The iteration on `p` runs every step: no fault, and the metadata is read. */
  predicate Completes(links: seq<Link>, p: Link, parseDate: string -> Option<Date>) {
    && p.fault.None?
    && FirstWithText(links, p.text).Some?
    && ExtractMetadata(FirstWithText(links, p.text).value.block, parseDate).Success?
  }

  lemma AttemptCompletes(links: seq<Link>, p: Link, parseDate: string -> Option<Date>)
    ensures Completes(links, p, parseDate) <==> (Attempt(links, p, parseDate).Assigned? && Attempt(links, p, parseDate).completed)
  {
  }

  function Outcomes(links: seq<Link>, ps: seq<Link>, parseDate: string -> Option<Date>): (os: seq<Outcome>)
    ensures |os| == |ps|
    ensures forall k :: 0 <= k < |ps| ==> os[k] == Attempt(links, ps[k], parseDate)
  {
    seq(|ps|, k requires 0 <= k < |ps| => Attempt(links, ps[k], parseDate))
  }

  // ---------------------------------------------------------------------------
  // The loop as written: `mdf` holds references to DataFrames, and a failure
  // before `idf` is assigned marks (and re-appends) the previous iteration's frame.
  // ---------------------------------------------------------------------------

  /** `frames` are the DataFrame objects created so far, `current` the one `idf` names,
      `refs` the list `mdf` of references to them. */
  datatype State = State(frames: seq<Frame>, current: Option<nat>, refs: seq<nat>)

  predicate Wf(st: State) {
    && (st.current.Some? ==> st.current.value < |st.frames|)
    && forall k :: 0 <= k < |st.refs| ==> st.refs[k] < |st.frames|
  }

  /** One pass of the loop body. */
  function Iterate(st: State, o: Outcome): (r: Result<State, BatchError>)
    requires Wf(st)
    ensures r.Success? ==> Wf(r.value) && |r.value.refs| == |st.refs| + 1
    ensures r.Failure? <==> o.Aborted? && st.current.None?
  {
    match o
    case Aborted =>
      if st.current.None? then Failure(UnboundIdf)
      else
        var c := st.current.value;
        Success(State(st.frames[c := st.frames[c].(status := FAILED)], st.current, st.refs + [c]))
    case Assigned(m, completed) =>
      var c := |st.frames|;
      Success(State(st.frames + [Frame(m, if completed then SUCCESS else FAILED)], Some(c), st.refs + [c]))
  }

  function RunLoop(st: State, os: seq<Outcome>): (r: Result<State, BatchError>)
    requires Wf(st)
    ensures r.Success? ==> Wf(r.value) && |r.value.refs| == |st.refs| + |os|
    decreases |os|
  {
    if |os| == 0 then Success(st)
    else
      match Iterate(st, os[0])
      case Failure(e) => Failure(e)
      case Success(st') => RunLoop(st', os[1..])
  }

  /** `pd.concat(mdf)`: every reference contributes the frame's final contents. */
  function Rows(st: State): seq<Frame>
    requires Wf(st)
  {
    seq(|st.refs|, k requires 0 <= k < |st.refs| => st.frames[st.refs[k]])
  }

  /** The whole function for one company: the page's links, the filter, the loop and
      the final concatenation. */
  function DownloadAll(links: seq<Link>, parseDate: string -> Option<Date>): Result<seq<Frame>, BatchError>
  {
    if |links| == 0 then Failure(SearchTimeout)
    else if exists l :: l in links && |l.text| == 0 then Failure(EmptyLinkText)
    else
      var os := Outcomes(links, Processed(links), parseDate);
      match RunLoop(State([], None, []), os)
      case Failure(e) => Failure(e)
      case Success(st) => if |st.refs| == 0 then Failure(NothingToConcat) else Success(Rows(st))
  }

  // ---------------------------------------------------------------------------
  // What the loop computes, in closed form.
  // ---------------------------------------------------------------------------

  /** The last iteration at or before `k` that assigned `idf` (0 when none did). */
  function LastAssigned(os: seq<Outcome>, k: nat): (a: nat)
    requires k < |os|
    ensures a <= k && (os[a].Assigned? || a == 0)
    ensures forall j :: a < j <= k ==> os[j].Aborted?
  {
    if os[k].Assigned? || k == 0 then k else LastAssigned(os, k - 1)
  }

  /** The status the frame created at iteration `a` has after `n` iterations: it stays
      SUCCESS only while no later iteration has failed before assigning a new frame. */
  function StatusAfter(os: seq<Outcome>, n: nat, a: nat): Status
    requires a < n <= |os| && os[a].Assigned?
  {
    if os[a].completed && (a + 1 == n || os[a + 1].Assigned?) then SUCCESS else FAILED
  }

  /** Reference `k` of a loop that has run `n` iterations points at the frame built by
      the last assignment at or before `k`, in the state that frame is in now; and it
      shares its frame with the newest reference exactly when both come from the same
      assignment. */
  ghost predicate RowOk(os: seq<Outcome>, n: nat, st: State, k: nat) {
    && k < n <= |os| && n <= |st.refs| && os[0].Assigned?
    && st.refs[k] < |st.frames|
    && st.frames[st.refs[k]] == Frame(os[LastAssigned(os, k)].meta, StatusAfter(os, n, LastAssigned(os, k)))
    && (st.refs[k] == st.refs[n - 1] <==> LastAssigned(os, k) == LastAssigned(os, n - 1))
  }

  ghost predicate Inv(os: seq<Outcome>, n: nat, st: State) {
    && 0 < |os| && os[0].Assigned? && n <= |os|
    && Wf(st) && |st.refs| == n
    && (n == 0 ==> st.current.None?)
    && (n > 0 ==> st.current == Some(st.refs[n - 1]))
    && forall k :: 0 <= k < n ==> RowOk(os, n, st, k)
  }

  lemma IterateKeepsInv(os: seq<Outcome>, n: nat, st: State)
    requires Inv(os, n, st) && n < |os|
    ensures Iterate(st, os[n]).Success? && Inv(os, n + 1, Iterate(st, os[n]).value)
  {
    if os[n].Assigned? {
      AssignedKeepsInv(os, n, st);
    } else {
      AbortedKeepsInv(os, n, st);
    }
  }

  /** A fresh frame is appended; the older frames keep their contents. */
  lemma AssignedKeepsInv(os: seq<Outcome>, n: nat, st: State)
    requires Inv(os, n, st) && n < |os| && os[n].Assigned?
    ensures Iterate(st, os[n]).Success? && Inv(os, n + 1, Iterate(st, os[n]).value)
  {
    var st' := Iterate(st, os[n]).value;
    var c := |st.frames|;
    var made := Frame(os[n].meta, if os[n].completed then SUCCESS else FAILED);
    assert st'.refs == st.refs + [c] && st'.frames == st.frames + [made];
    assert LastAssigned(os, n) == n;
    var n' := n + 1;
    forall k: nat | k < n'
      ensures RowOk(os, n', st', k)
    {
      if k < n {
        assert RowOk(os, n, st, k);
        assert st'.refs[k] == st.refs[k] && st.refs[k] < c;
        assert st'.frames[st'.refs[k]] == st.frames[st.refs[k]];
        var a := LastAssigned(os, k);
        assert StatusAfter(os, n + 1, a) == StatusAfter(os, n, a);
      } else {
        assert st'.refs[k] == c && st'.frames[c] == made;
      }
    }
  }

  /** The current frame is marked FAILED and referenced once more. */
  lemma AbortedKeepsInv(os: seq<Outcome>, n: nat, st: State)
    requires Inv(os, n, st) && n < |os| && os[n].Aborted?
    ensures Iterate(st, os[n]).Success? && Inv(os, n + 1, Iterate(st, os[n]).value)
  {
    assert n > 0;
    var c := st.current.value;
    var st' := Iterate(st, os[n]).value;
    assert st'.refs == st.refs + [c] && st'.frames == st.frames[c := st.frames[c].(status := FAILED)];
    var last := LastAssigned(os, n - 1);
    assert LastAssigned(os, n) == last;
    assert RowOk(os, n, st, n - 1);
    assert last + 1 <= n && os[last + 1].Aborted?;
    var n' := n + 1;
    forall k: nat | k < n'
      ensures RowOk(os, n', st', k)
    {
      var a := LastAssigned(os, k);
      if k == n {
        assert st'.refs[k] == c;
      } else {
        assert RowOk(os, n, st, k);
        if st.refs[k] == c {
          assert st'.refs[k] == c && a == last;
        } else {
          assert st'.refs[k] == st.refs[k] && a != last;
          assert a < last;
        }
      }
    }
  }

  /** One turn of the loop: running from `n` is iterating once and running from `n + 1`. */
  lemma RunLoopStep(os: seq<Outcome>, n: nat, st: State)
    requires Wf(st) && n < |os| && Iterate(st, os[n]).Success?
    ensures RunLoop(st, os[n..]) == RunLoop(Iterate(st, os[n]).value, os[n + 1..])
  {
    assert os[n..][0] == os[n];
    assert os[n..][1..] == os[n + 1..];
  }

  lemma {:induction false} LoopFromInv(os: seq<Outcome>, n: nat, st: State)
    requires Inv(os, n, st)
    ensures RunLoop(st, os[n..]).Success? && Inv(os, |os|, RunLoop(st, os[n..]).value)
    decreases |os| - n
  {
    if n < |os| {
      IterateKeepsInv(os, n, st);
      var st' := Iterate(st, os[n]).value;
      RunLoopStep(os, n, st);
      LoopFromInv(os, n + 1, st');
    } else {
      assert os[n..] == [];
    }
  }

  /** The loop from its initial state: it raises exactly when the first iteration fails
      before assigning `idf`; otherwise row `k` carries the metadata of the last
      assignment at or before `k`, with that frame's final status. */
  lemma LoopClosedForm(os: seq<Outcome>)
    requires |os| > 0
    ensures RunLoop(State([], None, []), os).Failure? <==> os[0].Aborted?
    ensures os[0].Aborted? ==> RunLoop(State([], None, []), os) == Failure(UnboundIdf)
    ensures RunLoop(State([], None, []), os).Success? ==>
      var rows := Rows(RunLoop(State([], None, []), os).value);
      && |rows| == |os|
      && forall k :: 0 <= k < |os| ==>
           rows[k] == Frame(os[LastAssigned(os, k)].meta, StatusAfter(os, |os|, LastAssigned(os, k)))
  {
    if os[0].Assigned? {
      assert os[0..] == os;
      LoopFromInv(os, 0, State([], None, []));
      var st := RunLoop(State([], None, []), os).value;
      forall k | 0 <= k < |os|
        ensures Rows(st)[k] == Frame(os[LastAssigned(os, k)].meta, StatusAfter(os, |os|, LastAssigned(os, k)))
      {
        assert RowOk(os, |os|, st, k);
      }
    }
  }

  /** The function's outcome: when it raises, and what every row holds when it does not. */
  lemma DownloadAllSpec(links: seq<Link>, parseDate: string -> Option<Date>)
    ensures var ps := Processed(links); var os := Outcomes(links, ps, parseDate);
      var r := DownloadAll(links, parseDate);
      && (|links| == 0 ==> r == Failure(SearchTimeout))
      && (|links| > 0 && (exists l :: l in links && |l.text| == 0) ==> r == Failure(EmptyLinkText))
      && (r.Success? <==>
            |links| > 0 && (forall l :: l in links ==> |l.text| > 0) && |ps| > 0 && os[0].Assigned?)
      && (r.Success? ==> (|r.value| == |ps|
            && forall k :: 0 <= k < |ps| ==>
                 r.value[k] == Frame(os[LastAssigned(os, k)].meta, StatusAfter(os, |os|, LastAssigned(os, k)))))
  {
    var os := Outcomes(links, Processed(links), parseDate);
    if |os| > 0 {
      LoopClosedForm(os);
    }
  }

  /** A SUCCESS row always stands for a link whose every step completed. */
  lemma SuccessRowMeansCompleted(links: seq<Link>, parseDate: string -> Option<Date>, k: nat)
    ensures var r := DownloadAll(links, parseDate);
      r.Success? && k < |r.value| && r.value[k].status == SUCCESS ==>
        k < |Processed(links)| && Completes(links, Processed(links)[k], parseDate)
  {
    var r := DownloadAll(links, parseDate);
    if r.Success? && k < |r.value| && r.value[k].status == SUCCESS {
      DownloadAllSpec(links, parseDate);
      var os := Outcomes(links, Processed(links), parseDate);
      SuccessStatusIsOwn(os, k);
      AttemptCompletes(links, Processed(links)[k], parseDate);
    }
  }

  /** A frame still SUCCESS at the end was built by its own iteration, which completed. */
  lemma SuccessStatusIsOwn(os: seq<Outcome>, k: nat)
    requires k < |os| && os[0].Assigned?
    requires StatusAfter(os, |os|, LastAssigned(os, k)) == SUCCESS
    ensures LastAssigned(os, k) == k && os[k].Assigned? && os[k].completed
  {
    var a := LastAssigned(os, k);
    assert os[a].completed && (a + 1 == |os| || os[a + 1].Assigned?);
  }

  /** A completed link is reported FAILED when the next link fails before its metadata
      is read, and that next row repeats it. */
  lemma FailureOverwritesPreviousRow(links: seq<Link>, parseDate: string -> Option<Date>, k: nat)
    ensures var r := DownloadAll(links, parseDate); var ps := Processed(links);
      r.Success? && k + 1 < |ps| && Attempt(links, ps[k + 1], parseDate).Aborted? ==>
        |r.value| == |ps| && r.value[k].status == FAILED && r.value[k + 1] == r.value[k]
  {
    var r := DownloadAll(links, parseDate);
    var ps := Processed(links);
    if r.Success? && k + 1 < |ps| && Attempt(links, ps[k + 1], parseDate).Aborted? {
      DownloadAllSpec(links, parseDate);
      var os := Outcomes(links, ps, parseDate);
      assert LastAssigned(os, k + 1) == LastAssigned(os, k);
    }
  }

  /** Two annual-report links whose text block reads as `m`: the first downloads fully,
      the second raises while its link is looked up again. Both rows come out FAILED,
      both carrying the first report's metadata. */
  lemma CompletedReportOverwritten(a: string, b: string, block: seq<string>, m: Metadata,
                         parseDate: string -> Option<Date>)
    requires IsAnnualReport(a) && IsAnnualReport(b)
    requires ExtractMetadata(block, parseDate) == Success(m)
    ensures DownloadAll([Link(a, block, None), Link(b, block, Some(FindLink))], parseDate)
      == Success([Frame(m, FAILED), Frame(m, FAILED)])
  {
    var links := [Link(a, block, None), Link(b, block, Some(FindLink))];
    BothProcessed(links);
    assert FirstWithText(links, a) == Some(links[0]);
    assert Attempt(links, links[0], parseDate) == Assigned(m, true);
    assert Attempt(links, links[1], parseDate) == Aborted;
    var os := Outcomes(links, links, parseDate);
    assert os == [Assigned(m, true), Aborted];
    assert forall l :: l in links ==> |l.text| > 0;
    DownloadAllSpec(links, parseDate);
    var r := DownloadAll(links, parseDate);
    assert r.Success?;
    assert LastAssigned(os, 1) == 0;
    assert StatusAfter(os, 2, 0) == FAILED;
    assert r.value[0] == Frame(m, FAILED);
    assert r.value[1] == Frame(m, FAILED);
    assert |r.value| == 2;
    assert r.value == [Frame(m, FAILED), Frame(m, FAILED)];
  }

  lemma BothProcessed(links: seq<Link>)
    requires |links| == 2 && IsAnnualReport(links[0].text) && IsAnnualReport(links[1].text)
    ensures Processed(links) == links
  {
    assert links[1..][1..] == [];
    assert Processed(links[1..][1..]) == [];
    assert Processed(links[1..]) == [links[1]];
  }

  // ---------------------------------------------------------------------------
  // The loop as evidently intended: every visited link gets its own row, with
  // no metadata when it failed before the metadata was read.
  // ---------------------------------------------------------------------------

  datatype Row = Row(meta: Option<Metadata>, status: Status)

  function RowFor(o: Outcome): (r: Row)
    ensures r.status == SUCCESS <==> o.Assigned? && o.completed
    ensures r.meta.Some? <==> o.Assigned?
  {
    match o
    case Aborted => Row(None, FAILED)
    case Assigned(m, completed) => Row(Some(m), if completed then SUCCESS else FAILED)
  }

  function DownloadAllIntended(links: seq<Link>, parseDate: string -> Option<Date>): (r: Result<seq<Row>, BatchError>)
    ensures r.Success? <==> |links| > 0 && (forall l :: l in links ==> |l.text| > 0) && |Processed(links)| > 0
    ensures r.Success? ==> |r.value| == |Processed(links)|
    ensures r.Success? ==> forall k :: 0 <= k < |r.value| ==>
      (r.value[k].status == SUCCESS <==> Completes(links, Processed(links)[k], parseDate))
    ensures r.Success? ==> forall k :: 0 <= k < |r.value| ==>
      (r.value[k].meta.Some? <==> Attempt(links, Processed(links)[k], parseDate).Assigned?)
    ensures r.Success? ==> forall k :: 0 <= k < |r.value| && r.value[k].meta.Some? ==>
      var l := FirstWithText(links, Processed(links)[k].text);
      && l.Some?
      && ExtractMetadata(l.value.block, parseDate) == Success(r.value[k].meta.value)
  {
    if |links| == 0 then Failure(SearchTimeout)
    else if exists l :: l in links && |l.text| == 0 then Failure(EmptyLinkText)
    else
      var ps := Processed(links);
      if |ps| == 0 then Failure(NothingToConcat)
      else
        var os := Outcomes(links, ps, parseDate);
        var rows := seq(|os|, k requires 0 <= k < |os| => RowFor(os[k]));
        RowsForOutcomes(links, ps, parseDate);
        assert forall k :: 0 <= k < |rows| ==> rows[k] == RowFor(os[k]);
        Success(rows)
  }

  /** Row `k` of the intended loop is SUCCESS exactly for a completed link, and carries
      metadata exactly when some was read. */
  lemma RowsForOutcomes(links: seq<Link>, ps: seq<Link>, parseDate: string -> Option<Date>)
    ensures var os := Outcomes(links, ps, parseDate);
      forall k :: 0 <= k < |ps| ==>
        && (RowFor(os[k]).status == SUCCESS <==> Completes(links, ps[k], parseDate))
        && (RowFor(os[k]).meta.Some? <==> Attempt(links, ps[k], parseDate).Assigned?)
        && (RowFor(os[k]).meta.Some? ==> RowFor(os[k]).meta.value == Attempt(links, ps[k], parseDate).meta)
  {
    var os := Outcomes(links, ps, parseDate);
    forall k | 0 <= k < |ps|
      ensures RowFor(os[k]).status == SUCCESS <==> Completes(links, ps[k], parseDate)
    {
      AttemptCompletes(links, ps[k], parseDate);
    }
  }
}

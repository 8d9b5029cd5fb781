/** The browser's window handles as seen by the scraper: the handles currently open
    (in the order the driver lists them), the handle recorded when the session started,
    and the handle that has focus. */
module Windows {
  import opened Wrappers

  type Handle = nat

  datatype Session = Session(open: seq<Handle>, start: Handle, focus: Handle)

  datatype WindowError =
    | NoSuchWindow       // switching to a handle that is no longer open
    | NewWindowTimeout   // no new window appeared before the wait expired

  /** The driver never lists a handle twice. */
  predicate Distinct(hs: seq<Handle>) {
    forall i, j :: 0 <= i < j < |hs| ==> hs[i] != hs[j]
  }

  /** The state every iteration of the download loop starts from: only the start
      window is open and it has focus. */
  predicate AtBaseline(s: Session) {
    s.open == [s.start] && s.focus == s.start
  }

  /** `[x for x in handles if x != start]`. */
  function Others(hs: seq<Handle>, start: Handle): (r: seq<Handle>)
    ensures forall x :: x in r <==> x in hs && x != start
    ensures Distinct(hs) ==> Distinct(r)
    ensures |r| <= |hs|
  {
    if |hs| == 0 then []
    else if hs[0] == start then Others(hs[1..], start)
    else
      assert forall x :: x in hs[1..] ==> x in hs;
      HeadNotInTail(hs);
      [hs[0]] + Others(hs[1..], start)
  }

  /** `driver.close()` on window `x`: it disappears from the handle list. */
  function Close(hs: seq<Handle>, x: Handle): (r: seq<Handle>)
    ensures forall y :: y in r <==> y in hs && y != x
    ensures Distinct(hs) ==> Distinct(r)
  {
    if |hs| == 0 then []
    else if hs[0] == x then Close(hs[1..], x)
    else
      assert forall y :: y in hs[1..] ==> y in hs;
      HeadNotInTail(hs);
      [hs[0]] + Close(hs[1..], x)
  }

  lemma HeadNotInTail(hs: seq<Handle>)
    requires |hs| > 0
    ensures Distinct(hs) ==> hs[0] !in hs[1..]
  {
    if Distinct(hs) {
      forall k | 0 <= k < |hs| - 1 ensures hs[1..][k] != hs[0] {
        assert hs[1..][k] == hs[k + 1];
      }
    }
  }

  lemma {:induction false} OnlyElement(hs: seq<Handle>, a: Handle)
    requires Distinct(hs)
    requires forall x :: x in hs <==> x == a
    ensures hs == [a]
  {
    assert a in hs;
    assert forall i :: 0 <= i < |hs| ==> hs[i] == a by {
      forall i | 0 <= i < |hs| ensures hs[i] == a {
        assert hs[i] in hs;
      }
    }
    assert hs[0] == a && hs[|hs| - 1] == a;
    assert |hs| == 1;
  }

  /** `close_all_but_first_window`: focuses and closes every window other than the start
      window, then focuses the start window. The final switch raises when the start
      window itself is gone. `closed` lists the windows closed, in order. */
  method CloseAllButFirst(s: Session) returns (r: Result<Session, WindowError>, closed: seq<Handle>)
    requires Distinct(s.open)
    ensures forall x :: x in closed <==> x in s.open && x != s.start
    ensures s.start !in closed && Distinct(closed)
    ensures r.Success? <==> s.start in s.open
    ensures r.Failure? ==> r.error == NoSuchWindow
    ensures r.Success? ==> AtBaseline(r.value) && r.value.start == s.start
  {
    var others := Others(s.open, s.start);
    var open := s.open;
    var focus := s.focus;
    closed := [];
    var i := 0;
    while i < |others|
      invariant 0 <= i <= |others|
      invariant closed == others[..i]
      invariant Distinct(open)
      invariant forall x :: x in open <==> x in s.open && x !in others[..i]
    {
      var x := others[i];
      assert x !in others[..i];
      assert x in open;
      focus := x;
      open := Close(open, focus);
      closed := closed + [x];
      assert others[..i + 1] == others[..i] + [x];
      i := i + 1;
    }
    assert others[..i] == others;
    if s.start in open {
      OnlyElement(open, s.start);
      focus := s.start;
      r := Success(Session(open, s.start, focus));
    } else {
      r := Failure(NoSuchWindow);
    }
  }

  /** `click_yuho_link`: clicking opens the windows `newHandles` (appended by the driver to
      its handle list); the wait fails unless at least one appeared, and focus then
      moves to the last listed handle. */
  function ClickLink(s: Session, newHandles: seq<Handle>): (r: Result<Session, WindowError>)
    ensures r.Success? <==> |newHandles| > 0
    ensures r.Failure? ==> r.error == NewWindowTimeout
    ensures r.Success? ==> r.value.start == s.start && r.value.focus in newHandles
    ensures r.Success? ==> forall x :: x in r.value.open <==> x in s.open || x in newHandles
  {
    if |newHandles| == 0 then Failure(NewWindowTimeout)
    else
      var hs := s.open + newHandles;
      Success(Session(hs, s.start, hs[|hs| - 1]))
  }

  /** A click never closes the start window and, when the new handles are fresh, the
      handle list stays duplicate-free: the next reset will succeed. */
  lemma ClickKeepsResettable(s: Session, newHandles: seq<Handle>)
    requires Distinct(s.open + newHandles) && s.start in s.open
    requires ClickLink(s, newHandles).Success?
    ensures var t := ClickLink(s, newHandles).value;
      Distinct(t.open) && t.start in t.open && t.focus != t.start
  {
    var hs := s.open + newHandles;
    var k :| 0 <= k < |s.open| && s.open[k] == s.start;
    assert hs[k] == s.start && hs[|hs| - 1] != hs[k];
  }
}

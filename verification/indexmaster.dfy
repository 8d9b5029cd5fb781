/** The index-master table: derived time-series columns, the TOPIX float-weight event
    flag and the ranking of flagged rows. Float weights and share counts are integers. */
module IndexMaster {
  import opened Wrappers
  import opened Decimal
  import opened Sorting

  /** One row of the concatenated index-master files, after column renaming. */
  datatype Row = Row(
    date: int,              // `date`, as a day number
    localcode: nat,         // `localcode`
    indexname: string,      // `indexname` (renamed from `indexclassification`)
    name: string,           // `name`
    ffw: int,               // `ffw`
    shares: int,            // `no.ofshares`
    change: int,            // `changeinno.ofshares`
    sharesBeforeFfw: int)   // `no.ofsharesbeforeffw`

  /** A row with the columns `add_ts_features` and `add_event_flags` add. */
  datatype Feat = Feat(
    row: Row,
    ticker: string,
    prevIndexname: Option<string>,
    prevSharesBeforeFfw: Option<int>,
    prevFfw: Option<int>,
    dffw: Option<int>,
    absDffw: Option<nat>,
    oldShares: int,
    eventtype: Option<string>)

  const TopixFfwChange := "topix_ffw_change"

  // ---------------------------------------------------------------------------
  // Ticker and sort order
  // ---------------------------------------------------------------------------

  /** `str(localcode)[0:4]`. */
  function TickerOf(r: Row): (t: string)
    ensures var c := Show(r.localcode);
      |t| == if |c| < 4 then |c| else 4
    ensures t <= Show(r.localcode)
  {
    var c := Show(r.localcode);
    if |c| <= 4 then c else c[..4]
  }

  /** Python's string comparison: code point by code point, a proper prefix first. */
  predicate StrLe(a: string, b: string)
  {
    |a| == 0 || (|b| > 0 && (a[0] < b[0] || (a[0] == b[0] && StrLe(a[1..], b[1..]))))
  }

  lemma {:induction false} StrLeTotal(a: string, b: string)
    ensures StrLe(a, b) || StrLe(b, a)
  {
    if |a| > 0 && |b| > 0 && a[0] == b[0] {
      StrLeTotal(a[1..], b[1..]);
    }
  }

  lemma {:induction false} StrLeTransitive(a: string, b: string, c: string)
    requires StrLe(a, b) && StrLe(b, c)
    ensures StrLe(a, c)
  {
    if |a| > 0 && |b| > 0 && |c| > 0 && a[0] == b[0] && b[0] == c[0] {
      StrLeTransitive(a[1..], b[1..], c[1..]);
    }
  }

  /** The order of `sort_values(['date', 'localcode', 'indexname'])`. */
  predicate KeyLe(x: Row, y: Row) {
    || x.date < y.date
    || (x.date == y.date && x.localcode < y.localcode)
    || (x.date == y.date && x.localcode == y.localcode && StrLe(x.indexname, y.indexname))
  }

  lemma KeyLeIsTotalPreorder()
    ensures TotalPreorder(KeyLe)
  {
    forall a: Row, b: Row ensures KeyLe(a, b) || KeyLe(b, a) {
      StrLeTotal(a.indexname, b.indexname);
    }
    forall a: Row, b: Row, c: Row | KeyLe(a, b) && KeyLe(b, c) ensures KeyLe(a, c) {
      if a.date == b.date == c.date && a.localcode == b.localcode == c.localcode {
        StrLeTransitive(a.indexname, b.indexname, c.indexname);
      }
    }
  }

  // ---------------------------------------------------------------------------
  // Group lags: groupby(...).shift(1)
  // ---------------------------------------------------------------------------

  /** The last position before `n` whose key is `k`: the row `shift(1)` reads from
      within the group `k`. */
  function LastBefore<K(==)>(ks: seq<K>, n: nat, k: K): (r: Option<nat>)
    requires n <= |ks|
    ensures r.Some? ==> r.value < n && ks[r.value] == k
    ensures r.Some? ==> forall i :: r.value < i < n ==> ks[i] != k
    ensures r.None? <==> forall i :: 0 <= i < n ==> ks[i] != k
  {
    if n == 0 then None
    else if ks[n - 1] == k then Some(n - 1)
    else LastBefore(ks, n - 1, k)
  }

  function Tickers(s: seq<Row>): (ts: seq<string>)
    ensures |ts| == |s| && forall i :: 0 <= i < |s| ==> ts[i] == TickerOf(s[i])
  {
    seq(|s|, i requires 0 <= i < |s| => TickerOf(s[i]))
  }

  /** The `(ticker, indexname)` group of every row. */
  function Groups(s: seq<Row>): (gs: seq<(string, string)>)
    ensures |gs| == |s| && forall i :: 0 <= i < |s| ==> gs[i] == (TickerOf(s[i]), s[i].indexname)
  {
    seq(|s|, i requires 0 <= i < |s| => (TickerOf(s[i]), s[i].indexname))
  }

  /** The derived columns of row `i` of the sorted table `s`, given the positions of its
      predecessor in its ticker (`pt`) and in its `(ticker, indexname)` group (`pg`). */
  function Derive(s: seq<Row>, i: nat, pt: Option<nat>, pg: Option<nat>): Feat
    requires i < |s|
    requires pt.Some? ==> pt.value < |s|
    requires pg.Some? ==> pg.value < |s|
  {
    var r := s[i];
    var dffw := if pg.Some? then Some(r.ffw - s[pg.value].ffw) else None;
    Feat(r, TickerOf(r),
         if pt.Some? then Some(s[pt.value].indexname) else None,
         if pt.Some? then Some(s[pt.value].sharesBeforeFfw) else None,
         if pg.Some? then Some(s[pg.value].ffw) else None,
         dffw,
         if dffw.Some? then Some(if dffw.value < 0 then -dffw.value else dffw.value) else None,
         r.shares - r.change,
         None)
  }

  /** The derived columns of row `i` as the grouped shifts define them. */
  function Feature(s: seq<Row>, i: nat): Feat
    requires i < |s|
  {
    Derive(s, i, LastBefore(Tickers(s), i, TickerOf(s[i])),
                 LastBefore(Groups(s), i, (TickerOf(s[i]), s[i].indexname)))
  }

  function RowsOf(fs: seq<Feat>): (rs: seq<Row>)
    ensures |rs| == |fs| && forall i :: 0 <= i < |fs| ==> rs[i] == fs[i].row
  {
    seq(|fs|, i requires 0 <= i < |fs| => fs[i].row)
  }

  function Get<K, V>(m: map<K, V>, k: K): Option<V> {
    if k in m then Some(m[k]) else None
  }

  /** `add_ts_features`: sorts the table and derives the lag columns in one pass,
      remembering the last row index seen per ticker and per `(ticker, indexname)`. */
  method AddTsFeatures(rows: seq<Row>) returns (out: seq<Feat>)
    ensures |out| == |rows|
    ensures multiset(RowsOf(out)) == multiset(rows)
    ensures SortedBy(RowsOf(out), KeyLe)
    ensures forall i :: 0 <= i < |out| ==> out[i] == Feature(RowsOf(out), i)
  {
    KeyLeIsTotalPreorder();
    SortSorted(rows, KeyLe);
    var s := InsertionSort(rows, KeyLe);
    var ts, gs := Tickers(s), Groups(s);
    var lastT: map<string, nat> := map[];
    var lastG: map<(string, string), nat> := map[];
    out := [];
    var i := 0;
    while i < |s|
      invariant 0 <= i <= |s|
      invariant |out| == i
      invariant forall j :: 0 <= j < i ==> out[j] == Feature(s, j)
      invariant forall t :: Get(lastT, t) == LastBefore(ts, i, t)
      invariant forall g :: Get(lastG, g) == LastBefore(gs, i, g)
    {
      var t, g := ts[i], gs[i];
      var f := Derive(s, i, Get(lastT, t), Get(lastG, g));
      out := out + [f];
      lastT := lastT[t := i];
      lastG := lastG[g := i];
      forall t' ensures Get(lastT, t') == LastBefore(ts, i + 1, t') {
        if t' != t { assert Get(lastT, t') == LastBefore(ts, i, t'); }
      }
      forall g' ensures Get(lastG, g') == LastBefore(gs, i + 1, g') {
        if g' != g { assert Get(lastG, g') == LastBefore(gs, i, g'); }
      }
      i := i + 1;
    }
    assert RowsOf(out) == s;
  }

  // ---------------------------------------------------------------------------
  // What the derived columns mean
  // ---------------------------------------------------------------------------

  predicate SameTicker(x: Row, y: Row) {
    TickerOf(x) == TickerOf(y)
  }

  predicate SameGroup(x: Row, y: Row) {
    TickerOf(x) == TickerOf(y) && x.indexname == y.indexname
  }

  /** `prev_ffw` is the `ffw` of the nearest earlier row of the same `(ticker, indexname)`
      group, and is missing exactly for the first row of a group. */
  lemma PrevFfwIsGroupPredecessor(s: seq<Row>, i: nat)
    requires i < |s|
    ensures Feature(s, i).prevFfw.None? <==> forall j :: 0 <= j < i ==> !SameGroup(s[j], s[i])
    ensures Feature(s, i).prevFfw.Some? ==>
      exists j :: 0 <= j < i && SameGroup(s[j], s[i]) && Feature(s, i).prevFfw == Some(s[j].ffw)
        && forall k :: j < k < i ==> !SameGroup(s[k], s[i])
  {
    var gs := Groups(s);
    var pg := LastBefore(gs, i, gs[i]);
    if pg.Some? {
      var j := pg.value;
      assert SameGroup(s[j], s[i]) by { assert gs[j] == gs[i]; }
      forall k | j < k < i ensures !SameGroup(s[k], s[i]) {
        assert gs[k] != gs[i];
      }
    } else {
      forall j | 0 <= j < i ensures !SameGroup(s[j], s[i]) {
        assert gs[j] != gs[i];
      }
    }
  }

  /** `prev_indexname` and `prev_no.ofsharesbeforeffw` come from the nearest earlier row of
      the same ticker, whatever its index; both are missing for the first row of a ticker. */
  lemma PrevIndexnameIsTickerPredecessor(s: seq<Row>, i: nat)
    requires i < |s|
    ensures Feature(s, i).prevIndexname.None? <==> forall j :: 0 <= j < i ==> !SameTicker(s[j], s[i])
    ensures Feature(s, i).prevIndexname.None? <==> Feature(s, i).prevSharesBeforeFfw.None?
    ensures Feature(s, i).prevIndexname.Some? ==>
      exists j :: 0 <= j < i && SameTicker(s[j], s[i])
        && Feature(s, i).prevIndexname == Some(s[j].indexname)
        && Feature(s, i).prevSharesBeforeFfw == Some(s[j].sharesBeforeFfw)
        && forall k :: j < k < i ==> !SameTicker(s[k], s[i])
  {
    var ts := Tickers(s);
    var pt := LastBefore(ts, i, ts[i]);
    if pt.Some? {
      var j := pt.value;
      assert SameTicker(s[j], s[i]) by { assert ts[j] == ts[i]; }
      forall k | j < k < i ensures !SameTicker(s[k], s[i]) {
        assert ts[k] != ts[i];
      }
    } else {
      forall j | 0 <= j < i ensures !SameTicker(s[j], s[i]) {
        assert ts[j] != ts[i];
      }
    }
  }

  /** `dffw` is `ffw - prev_ffw` when a predecessor exists and missing otherwise;
      `abs_dffw` is its absolute value; `old_shares` is the share count before the change. */
  lemma DerivedColumns(s: seq<Row>, i: nat)
    requires i < |s|
    ensures var f := Feature(s, i);
      && f.row == s[i]
      && (f.dffw.Some? <==> f.prevFfw.Some?)
      && (f.dffw.Some? ==> f.dffw.value == s[i].ffw - f.prevFfw.value)
      && (f.absDffw.Some? <==> f.dffw.Some?)
      && (f.absDffw.Some? ==> f.absDffw.value as int == f.dffw.value || f.absDffw.value as int == -f.dffw.value)
      && f.oldShares + s[i].change == s[i].shares
      && f.eventtype.None?
  {
  }

  /** When the ticker's previous row has the same index name, that row is also the
      group predecessor: the row then has a `prev_ffw` and an `abs_dffw`. */
  lemma ContinuedMembershipHasPrevFfw(s: seq<Row>, i: nat)
    requires i < |s|
    requires Feature(s, i).prevIndexname == Some(s[i].indexname)
    ensures Feature(s, i).prevFfw.Some? && Feature(s, i).absDffw.Some?
    ensures Feature(s, i).prevFfw == Some(s[LastBefore(Tickers(s), i, TickerOf(s[i])).value].ffw)
  {
    var ts, gs := Tickers(s), Groups(s);
    var j := LastBefore(ts, i, ts[i]).value;
    assert gs[j] == gs[i];
    forall k | j < k < i ensures gs[k] != gs[i] {
      assert ts[k] != ts[i];
    }
    assert LastBefore(gs, i, gs[i]) == Some(j) by {
      LastBeforeIsUnique(gs, i, gs[i], j);
    }
  }

  /** The last position before `n` with key `k` is the only position with that key
      and no later one before `n`. */
  lemma LastBeforeIsUnique<K>(ks: seq<K>, n: nat, k: K, j: nat)
    requires j < n <= |ks| && ks[j] == k
    requires forall i :: j < i < n ==> ks[i] != k
    ensures LastBefore(ks, n, k) == Some(j)
  {
    var r := LastBefore(ks, n, k);
    assert r.Some?;
  }

  // ---------------------------------------------------------------------------
  // add_event_flags
  // ---------------------------------------------------------------------------

  /** The row is a TOPIX member whose ticker was already in TOPIX on its previous row
      and whose share count before the change is positive. */
  predicate IsTopixFfwChange(f: Feat) {
    f.row.indexname == "TOPIX" && f.prevIndexname == Some(f.row.indexname) && f.oldShares > 0
  }

  function FlagEvent(f: Feat): (g: Feat)
    ensures g.(eventtype := f.eventtype) == f
    ensures IsTopixFfwChange(f) ==> g.eventtype == Some(TopixFfwChange)
    ensures !IsTopixFfwChange(f) ==> g == f
  {
    if IsTopixFfwChange(f) then f.(eventtype := Some(TopixFfwChange)) else f
  }

  /** `add_event_flags`: flags the qualifying rows and leaves every other row untouched. */
  function AddEventFlags(fs: seq<Feat>): (gs: seq<Feat>)
    ensures |gs| == |fs|
    ensures forall i :: 0 <= i < |fs| ==> gs[i].(eventtype := fs[i].eventtype) == fs[i]
    ensures forall i :: 0 <= i < |fs| ==>
      (gs[i].eventtype == Some(TopixFfwChange) <==> IsTopixFfwChange(fs[i]) || fs[i].eventtype == Some(TopixFfwChange))
    ensures forall i :: 0 <= i < |fs| && !IsTopixFfwChange(fs[i]) ==> gs[i] == fs[i]
  {
    seq(|fs|, i requires 0 <= i < |fs| => FlagEvent(fs[i]))
  }

  /** On freshly derived rows the flag is set exactly when the three conditions hold. */
  lemma FlagExactlyWhenConditionsHold(s: seq<Row>, i: nat)
    requires i < |s|
    ensures var g := FlagEvent(Feature(s, i));
      g.eventtype == Some(TopixFfwChange) <==>
        (s[i].indexname == "TOPIX" && Feature(s, i).prevIndexname == Some(s[i].indexname)
         && s[i].shares - s[i].change > 0)
  {
  }

  /** Flagging twice flags nothing more. */
  lemma {:induction false} AddEventFlagsIdempotent(fs: seq<Feat>)
    ensures AddEventFlags(AddEventFlags(fs)) == AddEventFlags(fs)
  {
    var gs := AddEventFlags(fs);
    forall i | 0 <= i < |fs| ensures FlagEvent(gs[i]) == gs[i] {
      assert IsTopixFfwChange(gs[i]) <==> IsTopixFfwChange(fs[i]);
    }
  }

  // ---------------------------------------------------------------------------
  // get_topix_ffw_changes
  // ---------------------------------------------------------------------------

  /** The columns `date, ticker, name, changeinno.ofshares, no.ofshares, ffw, prev_ffw,
      dffw, abs_dffw`. */
  datatype Change = Change(date: int, ticker: string, name: string, change: int, shares: int,
                           ffw: int, prevFfw: Option<int>, dffw: Option<int>, absDffw: Option<nat>)

  function Project(f: Feat): Change {
    Change(f.row.date, f.ticker, f.row.name, f.row.change, f.row.shares,
           f.row.ffw, f.prevFfw, f.dffw, f.absDffw)
  }

  predicate IsFlagged(f: Feat) {
    f.eventtype == Some(TopixFfwChange)
  }

  /** `query('eventtype == "topix_ffw_change"')`, projected onto the fixed columns. */
  function FlaggedChanges(fs: seq<Feat>): (cs: seq<Change>)
    ensures forall c :: c in cs <==> exists f :: f in fs && IsFlagged(f) && c == Project(f)
    ensures |cs| <= |fs|
  {
    if |fs| == 0 then []
    else
      var rest := FlaggedChanges(fs[1..]);
      assert forall f :: f in fs <==> f == fs[0] || f in fs[1..];
      if IsFlagged(fs[0]) then [Project(fs[0])] + rest else rest
  }

  /** The query keeps row order and duplicates: it works row by row over a concatenation. */
  lemma {:induction false} FlaggedChangesConcat(a: seq<Feat>, b: seq<Feat>)
    ensures FlaggedChanges(a + b) == FlaggedChanges(a) + FlaggedChanges(b)
    decreases |a|
  {
    if |a| == 0 {
      assert a + b == b;
    } else {
      assert (a + b)[0] == a[0];
      assert (a + b)[1..] == a[1..] + b;
      FlaggedChangesConcat(a[1..], b);
    }
  }

  /** A single row contributes its projection exactly when it is flagged. */
  lemma FlaggedChangesOfOne(f: Feat)
    ensures FlaggedChanges([f]) == if IsFlagged(f) then [Project(f)] else []
  {
    assert [f][1..] == [];
  }

  /** The descending sort key: a missing `abs_dffw` (NaN) sorts last. */
  function AbsKey(c: Change): int {
    if c.absDffw.Some? then c.absDffw.value else -1
  }

  predicate AbsGe(a: Change, b: Change) {
    AbsKey(a) >= AbsKey(b)
  }

  lemma AbsGeIsTotalPreorder()
    ensures TotalPreorder(AbsGe)
  {
  }

  /** `get_topix_ffw_changes`: the flagged rows, projected, largest `abs_dffw` first. */
  function GetTopixFfwChanges(fs: seq<Feat>): (r: seq<Change>)
    ensures multiset(r) == multiset(FlaggedChanges(fs))
    ensures forall c :: c in r <==> exists f :: f in fs && IsFlagged(f) && c == Project(f)
    ensures forall i, j :: 0 <= i < j < |r| ==> AbsKey(r[i]) >= AbsKey(r[j])
  {
    var cs := FlaggedChanges(fs);
    AbsGeIsTotalPreorder();
    SortSorted(cs, AbsGe);
    var r := InsertionSort(cs, AbsGe);
    assert forall c :: c in r <==> c in multiset(r);
    assert forall c :: c in cs <==> c in multiset(cs);
    r
  }

  /** Every ranked change of a freshly derived and flagged table carries `abs_dffw`:
      no NaN reaches the ranking. */
  lemma RankedChangesHaveAbsDffw(s: seq<Row>, fs: seq<Feat>)
    requires |fs| == |s| && forall i :: 0 <= i < |s| ==> fs[i] == Feature(s, i)
    ensures forall c :: c in GetTopixFfwChanges(AddEventFlags(fs)) ==> c.absDffw.Some?
  {
    var gs := AddEventFlags(fs);
    forall c | c in GetTopixFfwChanges(gs) ensures c.absDffw.Some? {
      var i := RankedChangeSource(gs, c);
      assert gs[i].(eventtype := fs[i].eventtype) == fs[i];
      DerivedColumns(s, i);
      TopixChangeHasAbsDffw(s, i);
    }
  }

  /** The position of a flagged row that a ranked change was projected from. */
  lemma RankedChangeSource(gs: seq<Feat>, c: Change) returns (i: nat)
    requires c in GetTopixFfwChanges(gs)
    ensures i < |gs| && IsFlagged(gs[i]) && c == Project(gs[i])
  {
    var f :| f in gs && IsFlagged(f) && c == Project(f);
    i :| i < |gs| && gs[i] == f;
  }

  /** A derived row that qualifies for the flag continues a TOPIX membership, so its
      ticker's previous row is its group predecessor and `abs_dffw` is present. */
  lemma TopixChangeHasAbsDffw(s: seq<Row>, i: nat)
    requires i < |s| && IsTopixFfwChange(Feature(s, i))
    ensures Feature(s, i).absDffw.Some?
  {
    ContinuedMembershipHasPrevFfw(s, i);
  }
}

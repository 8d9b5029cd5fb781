/** Filing metadata as read from the text block beside a filing link: the
    Japanese-era ("wareki") date normaliser, the five-column metadata row, and the
    name of the file a filing's content is saved under. */
module Wareki {
  import opened Wrappers
  import opened Decimal
  import opened Text

  datatype ExtractError =
    | NoLeadingNumber          // `re.findall(...)[0]` on an empty list: IndexError
    | EmptyBlock               // `dlist[0]` on an empty list: IndexError
    | ColumnCountMismatch(lines: nat)  // DataFrame with five index labels and another count of values

  // ---------------------------------------------------------------------------
  // The regular expression (\d+)\.
  // ---------------------------------------------------------------------------

  /** The pattern `(\d+)\.` matches `s` at `i`, capturing `s[i..j]`. */
  predicate MatchAt(s: string, i: int, j: int) {
    0 <= i < j < |s| && AllDigits(s[i..j]) && s[j] == '.'
  }

  /** End of the longest run of digits starting at `i`. */
  function RunEnd(s: string, i: nat): (e: nat)
    requires i <= |s|
    ensures i <= e <= |s| && AllDigits(s[i..e])
    ensures e < |s| ==> !IsDigit(s[e])
    decreases |s| - i
  {
    if i < |s| && IsDigit(s[i]) then
      var e := RunEnd(s, i + 1);
      assert s[i..e] == [s[i]] + s[i + 1..e];
      e
    else i
  }

  /** A match at `i` always ends where the digit run from `i` ends. */
  lemma {:induction false} MatchEndsAtRunEnd(s: string, i: nat, j: int)
    requires i <= |s| && MatchAt(s, i, j)
    ensures j == RunEnd(s, i)
    decreases j - i
  {
    assert IsDigit(s[i]) by { assert s[i..j][0] == s[i]; }
    if i + 1 < j {
      assert s[i + 1..j] == s[i..j][1..];
      MatchEndsAtRunEnd(s, i + 1, j);
    }
  }

  /** The leftmost match at or after `i`, as `re.findall` reports matches left to right. */
  function FindFrom(s: string, i: nat): (r: Option<(nat, nat)>)
    requires i <= |s|
    ensures r.Some? ==> i <= r.value.0 && MatchAt(s, r.value.0, r.value.1)
    ensures r.Some? ==> forall a, b :: i <= a < r.value.0 ==> !MatchAt(s, a, b)
    ensures r.None? ==> forall a, b :: i <= a ==> !MatchAt(s, a, b)
    decreases |s| - i
  {
    if i == |s| then None
    else
      var e := RunEnd(s, i);
      if i < e < |s| && s[e] == '.' then Some((i, e))
      else
        assert forall b :: !MatchAt(s, i, b) by {
          forall b | MatchAt(s, i, b) ensures false { MatchEndsAtRunEnd(s, i, b); }
        }
        FindFrom(s, i + 1)
  }

  /** `int(re.findall(r"(\d+)\.", s)[0])`, or nothing when there is no match. */
  function LeadingNumber(s: string): (r: Option<nat>)
    ensures r.None? <==> forall a, b :: !MatchAt(s, a, b)
    ensures r.Some? ==> exists a, b :: (MatchAt(s, a, b) && r.value == Value(s[a..b])
      && forall a', b' :: a' < a ==> !MatchAt(s, a', b'))
  {
    match FindFrom(s, 0)
    case None => None
    case Some((a, b)) => Some(Value(s[a..b]))
  }

  // ---------------------------------------------------------------------------
  // wareki_ascii_to_year
  // ---------------------------------------------------------------------------

  /** The Gregorian year for leading number `lead`: Heisei (`H`) starts in 1989, Reiwa
      (`R`) in 2019, and any other text is taken to be Gregorian already. */
  function EraYear(s: string, lead: nat): nat {
    if 'H' in s then lead + 1988 else if 'R' in s then lead + 2018 else lead
  }

  /** `wareki_ascii_to_year`: the leading number becomes a Gregorian year and the text
      after the first dot is kept after it. */
  function Normalize(s: string): (r: Result<string, ExtractError>)
    ensures r.Failure? <==> forall a, b :: !MatchAt(s, a, b)
    ensures r.Failure? ==> r.error == NoLeadingNumber
    ensures r.Success? ==> YearField(r.value).Some?
    ensures r.Success? ==> Split(r.value, '.')[0] == Show(YearField(r.value).value)
    ensures r.Success? && 'H' in s ==> YearField(r.value) == Some(LeadingNumber(s).value + 1988)
    ensures r.Success? && 'H' !in s && 'R' in s ==> YearField(r.value) == Some(LeadingNumber(s).value + 2018)
    ensures r.Success? && 'H' !in s && 'R' !in s ==> YearField(r.value) == LeadingNumber(s)
    ensures r.Success? ==> Split(r.value, '.')[1..] == Split(s, '.')[1..]
  {
    match LeadingNumber(s)
    case None => Failure(NoLeadingNumber)
    case Some(lead) =>
      var y := Show(EraYear(s, lead));
      var d := y + "." + Join(Split(s, '.')[1..], '.');
      RebuildFields(s, y);
      assert Split(d, '.')[0] == y;
      assert YearField(d) == Some(EraYear(s, lead));
      Success(d)
  }

  /** Putting a dot-free field in front of the fields after the first dot. */
  lemma RebuildFields(s: string, y: string)
    requires LeadingNumber(s).Some? && '.' !in y
    ensures Split(y + "." + Join(Split(s, '.')[1..], '.'), '.') == [y] + Split(s, '.')[1..]
  {
    var (a, b) := FindFrom(s, 0).value;
    assert s[b] == '.';
    var rest := Split(s, '.')[1..];
    assert y + "." + Join(rest, '.') == y + ['.'] + Join(rest, '.');
    SplitAtFirst(y, Join(rest, '.'), '.');
    SplitJoin(rest, '.');
  }

  /** The year written in front of the first dot of a normalised date, read back. */
  function YearField(d: string): Option<nat>
  {
    var f := Split(d, '.')[0];
    if |Split(d, '.')| >= 2 && |f| >= 1 && AllDigits(f) then Some(Value(f)) else None
  }

  // ---------------------------------------------------------------------------
  // get_metadata_for_ylink_as_dataframe
  // ---------------------------------------------------------------------------

  /** A calendar date as `pd.to_datetime` returns it. */
  datatype Date = Date(year: nat, month: nat, day: nat)

  predicate ValidDate(d: Date) {
    1 <= d.year <= 9999 && 1 <= d.month <= 12 && 1 <= d.day <= 31
  }

  /** One metadata row: the five columns `filingdatetime`, `name`, `edinetcode`,
      `issuername` and the unnamed fifth one. `filingDate` is absent when the date
      could not be parsed (NaT). */
  datatype Metadata = Metadata(filingDate: Option<Date>, title: string, edinetCode: string,
                               issuerName: string, extra: string)

  /** Reads the lines of the text block around a filing link into a metadata row.
      `parseDate` stands for `pd.to_datetime(..., errors='coerce')`, which never raises. */
  function ExtractMetadata(lines: seq<string>, parseDate: string -> Option<Date>): (r: Result<Metadata, ExtractError>)
    ensures r.Success? <==> |lines| == 5 && LeadingNumber(lines[0]).Some?
    ensures |lines| == 0 ==> r == Failure(EmptyBlock)
    ensures |lines| > 0 && LeadingNumber(lines[0]).None? ==> r == Failure(NoLeadingNumber)
    ensures r.Success? ==> (r.value.title == lines[1] && r.value.edinetCode == lines[2]
      && r.value.issuerName == lines[3] && r.value.extra == lines[4])
    ensures r.Success? ==> exists d :: Normalize(lines[0]) == Success(d) && r.value.filingDate == parseDate(d)
  {
    if |lines| == 0 then Failure(EmptyBlock)
    else
      match Normalize(lines[0])
      case Failure(e) => Failure(e)
      case Success(d) =>
        if |lines| != 5 then Failure(ColumnCountMismatch(|lines|))
        else Success(Metadata(parseDate(d), lines[1], lines[2], lines[3], lines[4]))
  }

  // ---------------------------------------------------------------------------
  // The saved file's name: code + '_' + str(date).replace('-', '') + '.html'
  // ---------------------------------------------------------------------------

  /** `str(date)` with the dashes removed; a NaT date prints as "NaT". */
  function DateStamp(d: Option<Date>): string
  {
    match d
    case None => "NaT"
    case Some(d) => Pad(d.year, 4) + Pad(d.month, 2) + Pad(d.day, 2)
  }

  function FileName(code: string, d: Option<Date>): string
  {
    code + "_" + DateStamp(d) + ".html"
  }

  /** `t` is eight digits that read, four then two then two, as the date `d`. */
  predicate StampReads(t: string, d: Date) {
    && |t| == 8 && AllDigits(t)
    && AllDigits(t[..4]) && Value(t[..4]) == d.year
    && AllDigits(t[4..6]) && Value(t[4..6]) == d.month
    && AllDigits(t[6..]) && Value(t[6..]) == d.day
  }

  /** `f` is `code_YYYYMMDD.html` with the eight digits reading as `d`. */
  predicate NameReads(f: string, code: string, d: Date) {
    var n := |code|;
    && |f| == n + 14
    && f[..n] == code && f[n] == '_' && f[n + 9..] == ".html"
    && StampReads(f[n + 1..n + 9], d)
  }

  /** For a valid date the stamp is eight digits: four of year, two of month, two of day. */
  lemma StampEncodesDate(d: Date)
    requires ValidDate(d)
    ensures StampReads(DateStamp(Some(d)), d)
  {
    assert Pow10(4) == 10000 && Pow10(2) == 100;
    var y, m, dd := Pad(d.year, 4), Pad(d.month, 2), Pad(d.day, 2);
    var t := y + m + dd;
    assert t[..4] == y && t[4..6] == m && t[6..] == dd;
  }

  /** For a valid date the file name is `code_YYYYMMDD.html` and the eight digits read
      back as the date. */
  lemma FileNameEncodesDate(code: string, d: Date)
    requires ValidDate(d)
    ensures NameReads(FileName(code, Some(d)), code, d)
  {
    var t := DateStamp(Some(d));
    var f := FileName(code, Some(d));
    StampEncodesDate(d);
    FileNameLayout(code, t, f);
  }

  /** Where each part of `code + "_" + t + ".html"` sits, for an eight-character stamp `t`. */
  lemma FileNameLayout(code: string, t: string, f: string)
    requires |t| == 8 && f == code + "_" + t + ".html"
    ensures var n := |code|;
      && |f| == n + 14
      && f[..n] == code && f[n] == '_' && f[n + 9..] == ".html"
      && f[n + 1..n + 9] == t
  {
    var n := |code|;
    assert f[n + 1..n + 9] == t;
  }

  /** Different valid filing dates of one code never share a file name. */
  lemma FileNameInjective(code: string, d1: Date, d2: Date)
    requires ValidDate(d1) && ValidDate(d2) && d1 != d2
    ensures FileName(code, Some(d1)) != FileName(code, Some(d2))
  {
    FileNameEncodesDate(code, d1);
    FileNameEncodesDate(code, d2);
  }
}

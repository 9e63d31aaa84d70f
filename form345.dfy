/**
 * What `form345largesttrades`, `form345submissions` and `form345names` compute,
 * stated on values: one fold per archive member, the first line of each
 * member being its header. The class in edgar.dfy runs these folds in place.
 */
module Form345 {
  import opened Base
  import opened Text
  import IsoDates

  /** One record: the `th` dict, column name to non-empty text. */
  type Fields = map<string, string>

  const Shares := "TRANS_SHARES"
  const Price := "TRANS_PRICEPERSHARE"
  const TransDate := "TRANS_DATE"
  const Title := "SECURITY_TITLE"
  const Accession := "ACCESSION_NUMBER"
  const Symbol := "ISSUERTRADINGSYMBOL"
  const OwnerCik := "RPTOWNERCIK"
  const OwnerName := "RPTOWNERNAME"
  /** How many amounts `form345largesttrades` keeps. */
  const TopCount := 100
  /** Column of SUBMISSION.tsv copied into the records (0-based). */
  const SymbolColumn := 11

  /** The `mton` table as written: every month code maps to "01". */
  const MonthCodes: map<string, string> := map[
    "JAN" := "01", "FEB" := "01", "MAR" := "01", "APR" := "01",
    "MAY" := "01", "JUN" := "01", "JUL" := "01", "AUG" := "01",
    "SEP" := "01", "OCT" := "01", "NOV" := "01", "DEC" := "01"]

  /** `re.split('\t', ln)`. */
  function Cells(line: string): (la: seq<string>)
    ensures |la| >= 1
  {
    Split(line, '\t')
  }

  // ---------------------------------------------------------------- header

  /** The index the header loop leaves behind: the last column named `name`, or 0 when there is none. */
  function LastIndex(hdr: seq<string>, name: string): (r: nat)
    ensures name in hdr ==> r < |hdr| && hdr[r] == name && forall j :: r < j < |hdr| ==> hdr[j] != name
    ensures name !in hdr ==> r == 0
    decreases |hdr|
  {
    if |hdr| == 0 then 0
    else if hdr[|hdr| - 1] == name then |hdr| - 1
    else
      assert forall x :: x in hdr <==> x in hdr[..|hdr| - 1] || x == hdr[|hdr| - 1];
      LastIndex(hdr[..|hdr| - 1], name)
  }

  /** The header row and the two column indices the row checks use. */
  datatype Layout = Layout(header: seq<string>, sharesAt: nat, priceAt: nat)

  function LayoutOf(hdr: seq<string>): Layout {
    Layout(hdr, LastIndex(hdr, Shares), LastIndex(hdr, Price))
  }

  // ---------------------------------------------------------------- TRANS_DATE

  /** `'%s-%s-%s' % (da[2], mton[da[1]], da[0])` with `da = v.split('-')`. */
  function ConvertTransDate(v: string): (r: Result<string>)
  {
    var da := Split(v, '-');
    if |da| < 3 then Err(IndexError)
    else if da[1] !in MonthCodes then Err(KeyError(da[1]))
    else Ok(da[2] + "-" + MonthCodes[da[1]] + "-" + da[0])
  }

  lemma JoinThree(a: string, b: string, c: string, sep: char)
    ensures Join([a, b, c], [sep]) == a + [sep] + b + [sep] + c
  {
    assert [a, b, c][1..] == [b, c] && [b, c][1..] == [c];
    assert Join([b, c], [sep]) == b + [sep] + c;
  }

  /** Every month code converts to month "01": `D-MON-Y` always becomes `Y-01-D`. */
  lemma ConvertedMonthIsJanuary(d: string, mon: string, y: string)
    requires '-' !in d && '-' !in y
    requires mon in MonthCodes
    ensures ConvertTransDate(d + "-" + mon + "-" + y) == Ok(y + "-01-" + d)
  {
    JoinThree(d, mon, y, '-');
    SplitJoin([d, mon, y], '-');
    assert Split(d + "-" + mon + "-" + y, '-') == [d, mon, y];
    assert MonthCodes[mon] == "01";
    assert y + "-" + "01" + "-" + d == y + "-01-" + d;
  }

  /** The conversion succeeds exactly on texts with at least three dash-separated parts whose second is a month code. */
  lemma ConvertTransDateShape(v: string)
    ensures ConvertTransDate(v).Ok? <==> |Split(v, '-')| >= 3 && Split(v, '-')[1] in MonthCodes
    ensures ConvertTransDate(v).Ok? ==>
      ConvertTransDate(v).value == Split(v, '-')[2] + "-01-" + Split(v, '-')[0]
  {
  }

  /** An already-ISO date is not recognised: its month digits are looked up as a month code and fail. */
  lemma IsoDateRejected(d: IsoDates.Date)
    requires IsoDates.Valid(d)
    ensures ConvertTransDate(IsoDates.Format(d)) == Err(KeyError(Pad(d.month, 2)))
  {
    var parts := [Pad(d.year, 4), Pad(d.month, 2), Pad(d.day, 2)];
    JoinThree(parts[0], parts[1], parts[2], '-');
    assert IsoDates.Format(d) == Join(parts, "-");
    assert forall i :: 0 <= i < 3 ==> AllDigits(parts[i]);
    SplitJoin(parts, '-');
    var m := Pad(d.month, 2);
    assert m !in MonthCodes by {
      assert IsDigit(m[0]);
    }
  }

  // ---------------------------------------------------------------- one record

  /** One pass of the `for i in range(len(hdr))` loop that builds `th`. */
  function FieldStep(hdr: seq<string>, la: seq<string>, i: nat, th: Fields): Result<Fields>
    requires i < |hdr|
  {
    if i >= |la| then Err(IndexError)
    else if la[i] == "" then Ok(th)
    else if hdr[i] == TransDate then
      match ConvertTransDate(la[i])
      case Err(e) => Err(e)
      case Ok(v) => Ok(th[hdr[i] := v])
    else Ok(th[hdr[i] := la[i]])
  }

  /** `th` after the first `n` header columns. */
  function BuildFields(hdr: seq<string>, la: seq<string>, n: nat): Result<Fields>
    requires n <= |hdr|
    decreases n
  {
    if n == 0 then Ok(map[])
    else match BuildFields(hdr, la, n - 1)
      case Err(e) => Err(e)
      case Ok(th) => FieldStep(hdr, la, n - 1, th)
  }

  /** Last position below `n` where column `k` holds a non-empty value. */
  predicate LastFilled(hdr: seq<string>, la: seq<string>, n: nat, k: string, i: int) {
    0 <= i < n <= |hdr| && n <= |la| && hdr[i] == k && la[i] != ""
    && forall j :: i < j < n ==> hdr[j] != k || la[j] == ""
  }

  /**
   * A record holds exactly the columns whose value is non-empty, each under its
   * header name with the value of its last such column, TRANS_DATE converted.
   */
  lemma {:induction false} BuildFieldsContents(hdr: seq<string>, la: seq<string>, n: nat)
    requires n <= |hdr|
    requires BuildFields(hdr, la, n).Ok?
    ensures Describes(hdr, la, n, BuildFields(hdr, la, n).value)
    decreases n
  {
    if n > 0 {
      BuildFieldsContents(hdr, la, n - 1);
      FieldStepContents(hdr, la, n - 1, BuildFields(hdr, la, n - 1).value);
    }
  }

  /** `th` holds, for each column name, the value of its last filled column below `n`. */
  ghost predicate Describes(hdr: seq<string>, la: seq<string>, n: nat, th: Fields) {
    n <= |la|
    && (forall k :: k in th <==> exists i :: LastFilled(hdr, la, n, k, i))
    && (forall k, i :: LastFilled(hdr, la, n, k, i) ==> Stored(th, k, la[i]))
  }

  /** `th` holds the value of column `k` taken from `raw`, TRANS_DATE converted. */
  predicate Stored(th: Fields, k: string, raw: string) {
    k in th && if k == TransDate then ConvertTransDate(raw) == Ok(th[k]) else th[k] == raw
  }

  /** One pass of the column loop extends the description by one column. */
  lemma FieldStepContents(hdr: seq<string>, la: seq<string>, c: nat, th: Fields)
    requires c < |hdr| && Describes(hdr, la, c, th) && FieldStep(hdr, la, c, th).Ok?
    ensures Describes(hdr, la, c + 1, FieldStep(hdr, la, c, th).value)
  {
    if la[c] == "" {
      DescribesSkip(hdr, la, c, th);
    } else {
      var th' := FieldStep(hdr, la, c, th).value;
      assert th' == th[hdr[c] := th'[hdr[c]]] && Stored(th', hdr[c], la[c]);
      DescribesSet(hdr, la, c, th, th'[hdr[c]]);
    }
  }

  /** An empty column adds nothing. */
  lemma DescribesSkip(hdr: seq<string>, la: seq<string>, c: nat, th: Fields)
    requires c < |hdr| && c < |la| && la[c] == "" && Describes(hdr, la, c, th)
    ensures Describes(hdr, la, c + 1, th)
  {
    var n := c + 1;
    LastFilledStep(hdr, la, n);
    forall k | k in th ensures exists i :: LastFilled(hdr, la, n, k, i) {
      var i :| LastFilled(hdr, la, c, k, i);
      assert LastFilled(hdr, la, n, k, i);
    }
  }

  /** A filled column stores its value under its header name, replacing any earlier one. */
  lemma DescribesSet(hdr: seq<string>, la: seq<string>, c: nat, th: Fields, v: string)
    requires c < |hdr| && c < |la| && la[c] != "" && Describes(hdr, la, c, th)
    requires Stored(th[hdr[c] := v], hdr[c], la[c])
    ensures Describes(hdr, la, c + 1, th[hdr[c] := v])
  {
    var th' := th[hdr[c] := v];
    var n := c + 1;
    LastFilledStep(hdr, la, n);
    assert LastFilled(hdr, la, n, hdr[c], c);
    forall k | k in th' ensures exists i :: LastFilled(hdr, la, n, k, i) {
      if k != hdr[c] {
        var i :| LastFilled(hdr, la, c, k, i);
        assert LastFilled(hdr, la, n, k, i);
      }
    }
    forall k, i | LastFilled(hdr, la, n, k, i) ensures Stored(th', k, la[i]) {
      if k != hdr[c] {
        assert LastFilled(hdr, la, c, k, i);
        assert Stored(th, k, la[i]);
      }
    }
  }

  /** How the last filled position of a column moves when one more column is looked at. */
  lemma LastFilledStep(hdr: seq<string>, la: seq<string>, n: nat)
    requires 0 < n <= |hdr| && n <= |la|
    ensures forall k, i :: LastFilled(hdr, la, n, k, i) ==> LastFilled(hdr, la, n - 1, k, i) || (i == n - 1 && hdr[n - 1] == k)
    ensures forall k, i :: LastFilled(hdr, la, n - 1, k, i) && (hdr[n - 1] != k || la[n - 1] == "") ==> LastFilled(hdr, la, n, k, i)
    ensures forall k, i :: LastFilled(hdr, la, n, k, i) && i < n - 1 ==> la[n - 1] == "" || hdr[n - 1] != k
  {
  }

  /** No record holds an empty value. */
  lemma BuildFieldsNonEmpty(hdr: seq<string>, la: seq<string>)
    requires BuildFields(hdr, la, |hdr|).Ok?
    ensures forall k :: k in BuildFields(hdr, la, |hdr|).value ==> BuildFields(hdr, la, |hdr|).value[k] != ""
  {
    var th := BuildFields(hdr, la, |hdr|).value;
    BuildFieldsContents(hdr, la, |hdr|);
    forall k | k in th ensures th[k] != "" {
      var i :| LastFilled(hdr, la, |hdr|, k, i);
      if k == TransDate {
        var v := th[k];
        assert ConvertTransDate(la[i]) == Ok(v);
        var da := Split(la[i], '-');
        assert v == da[2] + "-" + MonthCodes[da[1]] + "-" + da[0];
        assert v[|da[2]|] == '-';
      }
    }
  }

  // ---------------------------------------------------------------- the title filter

  /** One alternative of `(Common|Shares|Stock*)`: "Common", "Shares", or "Stoc" followed by any number of 'k'. */
  predicate InAlternative(s: string) {
    s == "Common" || s == "Shares"
    || (|s| >= 4 && s[..4] == "Stoc" && forall i :: 4 <= i < |s| ==> s[i] == 'k')
  }

  /** The language of `(Common|Shares|Stock*)*`. */
  predicate InStar(s: string)
    decreases |s|
  {
    s == [] || exists i :: 0 < i <= |s| && InAlternative(s[..i]) && InStar(s[i..])
  }

  /** `re.match(pattern, t)` is truthy: some prefix of `t` is in the pattern's language. */
  predicate TitleMatches(t: string) {
    exists k :: 0 <= k <= |t| && InStar(t[..k])
  }

  /** The pattern matches the empty prefix, so every title is admitted. */
  lemma TitleAlwaysMatches(t: string)
    ensures TitleMatches(t)
  {
    assert InStar(t[..0]);
  }

  // ---------------------------------------------------------------- one data row

  datatype RowOutcome =
    | Skipped                              // too short, or an empty shares/price field: `continue`
    | ZeroAmount                           // shares * price == 0.0: `continue`
    | Filtered(amount: real)               // title rejected after the bucket was created
    | Kept(amount: real, fields: Fields)   // appended to the bucket of `amount`
    | Failed(failure: Failure)             // an exception ends the run

  /**
   * Python's floating point as the rows use it: `parse` is `float()` on a
   * text (None where it raises ValueError), `times` the product of two floats.
   */
  datatype FloatOps = FloatOps(parse: string -> Option<real>, times: (real, real) -> real)

  /** The checks before a data row's record is built: skip the row, raise, or its dollar amount. */
  datatype Screened = Skip | Raise(failure: Failure) | Amount(amount: real)

  function ScreenRow(lay: Layout, la: seq<string>, fp: FloatOps): (s: Screened)
    ensures s.Skip? <==> |la| <= lay.priceAt || (lay.sharesAt < |la| && (la[lay.sharesAt] == "" || la[lay.priceAt] == ""))
    ensures s.Amount? <==>
      && lay.sharesAt < |la| && lay.priceAt < |la| && la[lay.sharesAt] != "" && la[lay.priceAt] != ""
      && fp.parse(la[lay.sharesAt]).Some? && fp.parse(la[lay.priceAt]).Some?
    ensures s.Amount? ==> s.amount == fp.times(fp.parse(la[lay.sharesAt]).value, fp.parse(la[lay.priceAt]).value)
    ensures s.Raise? ==> s.failure == (if lay.sharesAt < |la| then ValueError else IndexError)
  {
    if |la| < lay.priceAt + 1 then Skip
    else if lay.sharesAt >= |la| then Raise(IndexError)
    else if la[lay.sharesAt] == "" || la[lay.priceAt] == "" then Skip
    else match fp.parse(la[lay.sharesAt])
      case None => Raise(ValueError)
      case Some(x) =>
        match fp.parse(la[lay.priceAt])
        case None => Raise(ValueError)
        case Some(y) => Amount(fp.times(x, y))
  }

  /** One data row of NONDERIV_TRANS.tsv. */
  function ClassifyRow(lay: Layout, la: seq<string>, fp: FloatOps): (o: RowOutcome)
    ensures o == Skipped <==> ScreenRow(lay, la, fp) == Skip
    ensures o == ZeroAmount <==> ScreenRow(lay, la, fp) == Amount(0.0)
    ensures o.Kept? <==>
      && ScreenRow(lay, la, fp).Amount? && ScreenRow(lay, la, fp).amount != 0.0
      && BuildFields(lay.header, la, |lay.header|).Ok? && Title in BuildFields(lay.header, la, |lay.header|).value
    ensures o.Kept? ==> o == Kept(ScreenRow(lay, la, fp).amount, BuildFields(lay.header, la, |lay.header|).value)
    ensures ScreenRow(lay, la, fp).Raise? ==> o == Failed(ScreenRow(lay, la, fp).failure)
    ensures !o.Filtered?
  {
    match ScreenRow(lay, la, fp)
    case Skip => Skipped
    case Raise(e) => Failed(e)
    case Amount(amount) => ClassifyAmount(amount, lay.header, la)
  }

  /** A row that passed the checks: skipped on a zero amount, otherwise its record decides. */
  function ClassifyAmount(amount: real, hdr: seq<string>, la: seq<string>): (o: RowOutcome)
    ensures o == ZeroAmount <==> amount == 0.0
    ensures o.Kept? <==> amount != 0.0 && BuildFields(hdr, la, |hdr|).Ok? && Title in BuildFields(hdr, la, |hdr|).value
    ensures o.Kept? ==> o == Kept(amount, BuildFields(hdr, la, |hdr|).value)
    ensures o.Failed? <==> amount != 0.0 && (BuildFields(hdr, la, |hdr|).Err? || Title !in BuildFields(hdr, la, |hdr|).value)
  {
    if amount == 0.0 then ZeroAmount
    else ClassifyRecord(amount, BuildFields(hdr, la, |hdr|))
  }

  /** The tail of a row with a non-zero amount: its record, then the title filter. */
  function ClassifyRecord(amount: real, r: Result<Fields>): (o: RowOutcome)
    ensures r.Ok? && Title in r.value ==> o == Kept(amount, r.value)
    ensures r.Ok? && Title !in r.value ==> o == Failed(KeyError(Title))
    ensures r.Err? ==> o == Failed(r.failure)
  {
    match r
    case Err(e) => Failed(e)
    case Ok(th) =>
      if Title !in th then Failed(KeyError(Title))
      else
        TitleAlwaysMatches(th[Title]);
        if TitleMatches(th[Title]) then Kept(amount, th) else Filtered(amount)
  }

  /** The title filter never rejects: a row is never Filtered. */
  lemma NeverFiltered(lay: Layout, la: seq<string>, fp: FloatOps)
    ensures !ClassifyRow(lay, la, fp).Filtered?
  {
    match BuildFields(lay.header, la, |lay.header|)
    case Err(_) =>
    case Ok(th) => if Title in th { TitleAlwaysMatches(th[Title]); }
  }

  /** What a kept row went through: both fields present and numeric, a non-zero product, a record with a title. */
  lemma KeptRowShape(lay: Layout, la: seq<string>, fp: FloatOps)
    requires ClassifyRow(lay, la, fp).Kept?
    ensures lay.priceAt < |la| && lay.sharesAt < |la|
    ensures la[lay.sharesAt] != "" && la[lay.priceAt] != ""
    ensures fp.parse(la[lay.sharesAt]).Some? && fp.parse(la[lay.priceAt]).Some?
    ensures ClassifyRow(lay, la, fp).amount == fp.times(fp.parse(la[lay.sharesAt]).value, fp.parse(la[lay.priceAt]).value)
    ensures BuildFields(lay.header, la, |lay.header|) == Ok(ClassifyRow(lay, la, fp).fields)
    ensures Title in ClassifyRow(lay, la, fp).fields
  {
    assert ScreenRow(lay, la, fp).Amount?;
  }

  /**
   * Exactly the rows the loop appends are kept: both amount fields present,
   * non-empty and numeric, a non-zero product, and a record with a title.
   */
  lemma KeptRowExactly(lay: Layout, la: seq<string>, fp: FloatOps)
    ensures ClassifyRow(lay, la, fp).Kept? <==>
      && lay.sharesAt < |la| && lay.priceAt < |la|
      && la[lay.sharesAt] != "" && la[lay.priceAt] != ""
      && fp.parse(la[lay.sharesAt]).Some? && fp.parse(la[lay.priceAt]).Some?
      && fp.times(fp.parse(la[lay.sharesAt]).value, fp.parse(la[lay.priceAt]).value) != 0.0
      && BuildFields(lay.header, la, |lay.header|).Ok? && Title in BuildFields(lay.header, la, |lay.header|).value
  {
  }

  /**
   * A kept row's bucket is its own shares times price, read back from its
   * record, whenever the header names both columns.
   */
  lemma KeptAmountFromRecord(lay: Layout, la: seq<string>, fp: FloatOps)
    requires lay == LayoutOf(lay.header)
    requires Shares in lay.header && Price in lay.header
    requires ClassifyRow(lay, la, fp).Kept?
    ensures var o := ClassifyRow(lay, la, fp);
      && Shares in o.fields && Price in o.fields
      && fp.parse(o.fields[Shares]).Some? && fp.parse(o.fields[Price]).Some?
      && o.amount == fp.times(fp.parse(o.fields[Shares]).value, fp.parse(o.fields[Price]).value)
  {
    var hdr := lay.header;
    KeptRowShape(lay, la, fp);
    var th := ClassifyRow(lay, la, fp).fields;
    BuildFieldsContents(hdr, la, |hdr|);
    assert LastFilled(hdr, la, |hdr|, Shares, lay.sharesAt);
    assert LastFilled(hdr, la, |hdr|, Price, lay.priceAt);
    assert th[Shares] == la[lay.sharesAt];
    assert th[Price] == la[lay.priceAt];
  }

  /** Every field of a kept record is non-empty. */
  lemma KeptFieldsNonEmpty(lay: Layout, la: seq<string>, fp: FloatOps)
    requires ClassifyRow(lay, la, fp).Kept?
    ensures forall k :: k in ClassifyRow(lay, la, fp).fields ==> ClassifyRow(lay, la, fp).fields[k] != ""
  {
    BuildFieldsNonEmpty(lay.header, la);
  }

  // ---------------------------------------------------------------- the whole member

  /** `prtransdict`: amount to the records of that amount, in file order. */
  type Buckets = map<real, seq<Fields>>

  /** What one non-failing row does to `prtransdict`. */
  function AddOutcome(b: Buckets, o: RowOutcome): Buckets
    requires !o.Failed?
  {
    match o
    case Filtered(a) => if a in b then b else b[a := []]
    case Kept(a, f) => b[a := (if a in b then b[a] else []) + [f]]
    case _ => b
  }

  /** `prtransdict` after the data rows `lines[1..n]`, or the first exception. */
  function CollectRows(lay: Layout, lines: seq<string>, n: nat, fp: FloatOps): Result<Buckets>
    requires 1 <= n <= |lines|
    decreases n
  {
    if n == 1 then Ok(map[])
    else match CollectRows(lay, lines, n - 1, fp)
      case Err(e) => Err(e)
      case Ok(b) =>
        var o := ClassifyRow(lay, Cells(lines[n - 1]), fp);
        if o.Failed? then Err(o.failure) else Ok(AddOutcome(b, o))
  }

  /** `prtransdict` after the whole member; its first line is the header. */
  function Collect(lines: seq<string>, fp: FloatOps): Result<Buckets> {
    if |lines| == 0 then Ok(map[])
    else CollectRows(LayoutOf(Cells(lines[0])), lines, |lines|, fp)
  }

  /** Some data row among `lines[1..n]` was kept with amount `a` and record `f`. */
  predicate KeptAmong(lay: Layout, lines: seq<string>, n: nat, fp: FloatOps, a: real, f: Fields)
    requires n <= |lines|
  {
    exists j :: 1 <= j < n && ClassifyRow(lay, Cells(lines[j]), fp) == Kept(a, f)
  }

  lemma KeptAmongStep(lay: Layout, lines: seq<string>, n: nat, fp: FloatOps, a: real, f: Fields)
    requires 1 < n <= |lines|
    ensures KeptAmong(lay, lines, n, fp, a, f) <==>
      KeptAmong(lay, lines, n - 1, fp, a, f) || ClassifyRow(lay, Cells(lines[n - 1]), fp) == Kept(a, f)
  {
    if KeptAmong(lay, lines, n, fp, a, f) && ClassifyRow(lay, Cells(lines[n - 1]), fp) != Kept(a, f) {
      var j :| 1 <= j < n && ClassifyRow(lay, Cells(lines[j]), fp) == Kept(a, f);
      assert j < n - 1;
    }
    if ClassifyRow(lay, Cells(lines[n - 1]), fp) == Kept(a, f) {
      assert 1 <= n - 1 < n;
    }
  }

  /** The records of a bucket are exactly the kept data rows of that amount; the header is never one. */
  lemma {:induction false} CollectRowsMembers(lay: Layout, lines: seq<string>, n: nat, fp: FloatOps)
    requires 1 <= n <= |lines|
    requires CollectRows(lay, lines, n, fp).Ok?
    ensures var b := CollectRows(lay, lines, n, fp).value;
      forall a, f :: (a in b && f in b[a]) <==> KeptAmong(lay, lines, n, fp, a, f)
    decreases n
  {
    if n > 1 {
      CollectRowsMembers(lay, lines, n - 1, fp);
      var b := CollectRows(lay, lines, n - 1, fp).value;
      var o := ClassifyRow(lay, Cells(lines[n - 1]), fp);
      assert CollectRows(lay, lines, n, fp).value == AddOutcome(b, o);
      var b' := AddOutcome(b, o);
      forall a, f ensures (a in b' && f in b'[a]) <==> KeptAmong(lay, lines, n, fp, a, f) {
        KeptAmongStep(lay, lines, n, fp, a, f);
        if o.Kept? {
          assert b'[o.amount] == (if o.amount in b then b[o.amount] else []) + [o.fields];
        }
      }
    }
  }

  /** No bucket is keyed by a zero amount, and no bucket stays empty (the title filter never rejects). */
  lemma {:induction false} CollectRowsBuckets(lay: Layout, lines: seq<string>, n: nat, fp: FloatOps)
    requires 1 <= n <= |lines|
    requires CollectRows(lay, lines, n, fp).Ok?
    ensures 0.0 !in CollectRows(lay, lines, n, fp).value
    ensures forall a :: a in CollectRows(lay, lines, n, fp).value ==> |CollectRows(lay, lines, n, fp).value[a]| > 0
    decreases n
  {
    if n > 1 {
      CollectRowsBuckets(lay, lines, n - 1, fp);
      NeverFiltered(lay, Cells(lines[n - 1]), fp);
    }
  }

  /** The properties above for a whole member. */
  lemma CollectFacts(lines: seq<string>, fp: FloatOps)
    requires |lines| >= 1 && Collect(lines, fp).Ok?
    ensures var b := Collect(lines, fp).value;
      && 0.0 !in b
      && (forall a :: a in b ==> |b[a]| > 0)
      && forall a, f :: (a in b && f in b[a]) <==> KeptAmong(LayoutOf(Cells(lines[0])), lines, |lines|, fp, a, f)
  {
    CollectRowsMembers(LayoutOf(Cells(lines[0])), lines, |lines|, fp);
    CollectRowsBuckets(LayoutOf(Cells(lines[0])), lines, |lines|, fp);
  }

  // ---------------------------------------------------------------- the top amounts

  /** Each amount is larger than the one after it. */
  predicate StrictlyDescending(s: seq<real>)
    decreases |s|
  {
    |s| < 2 || (s[0] > s[1] && StrictlyDescending(s[1..]))
  }

  /** In a strictly descending sequence an earlier amount is larger than any later one. */
  lemma {:induction false} DescendingPairs(s: seq<real>, i: nat, j: nat)
    requires StrictlyDescending(s) && i < j < |s|
    ensures s[i] > s[j]
    decreases j
  {
    if i == 0 {
      if j > 1 {
        DescendingPairs(s[1..], 0, j - 1);
      }
    } else {
      DescendingPairs(s[1..], i - 1, j - 1);
    }
  }

  lemma {:induction false} MaxExists(keys: set<real>)
    requires keys != {}
    ensures exists m :: m in keys && forall x :: x in keys ==> x <= m
    decreases |keys|
  {
    if forall z :: z !in keys { assert false; }
    var y :| y in keys;
    var rest := keys - {y};
    if rest == {} {
      forall x | x in keys ensures x <= y { assert x in rest + {y}; }
    } else {
      MaxExists(rest);
      var m :| m in rest && forall x :: x in rest ==> x <= m;
      MaxStep(keys, y, m);
    }
  }

  /** The larger of `y` and the largest of the other amounts bounds them all. */
  lemma MaxStep(keys: set<real>, y: real, m: real)
    requires y in keys && m in keys - {y}
    requires forall x :: x in keys - {y} ==> x <= m
    ensures exists b :: b in keys && forall x :: x in keys ==> x <= b
  {
    var big := if y > m then y else m;
    forall x | x in keys ensures x <= big { if x != y { assert x in keys - {y}; } }
  }

  /** The largest amount of a non-empty set. */
  function MaxOf(keys: set<real>): (m: real)
    requires keys != {}
    ensures m in keys && forall x :: x in keys ==> x <= m
  {
    MaxExists(keys);
    var m :| m in keys && forall x :: x in keys ==> x <= m;
    m
  }

  /** `sorted(keys, reverse=True)`. */
  function SortedDesc(keys: set<real>): (s: seq<real>)
    ensures StrictlyDescending(s) && |s| == |keys|
    ensures forall x :: x in s <==> x in keys
    decreases |keys|
  {
    if keys == {} then []
    else
      var m := MaxOf(keys);
      var rest := SortedDesc(keys - {m});
      assert |keys - {m}| == |keys| - 1;
      assert forall i :: 0 <= i < |rest| ==> rest[i] in keys - {m};
      assert forall x :: x in [m] + rest <==> x == m || x in rest;
      assert ([m] + rest)[1..] == rest;
      [m] + rest
  }

  /** The first `TopCount` sorted amounts are the largest: every other amount is smaller than each of them. */
  lemma TopOfDescending(s: seq<real>, n: nat, i: nat, x: real)
    requires StrictlyDescending(s) && i < n <= |s|
    requires x in s && x !in s[..n]
    ensures x < s[i]
  {
    var j :| 0 <= j < |s| && s[j] == x;
    if n <= j {
      DescendingPairs(s, i, j);
    }
  }

  lemma TopAmountsAreLargest(keys: set<real>, i: nat, x: real)
    requires i < TopCount <= |keys|
    requires x in keys && x !in SortedDesc(keys)[..TopCount]
    ensures x < SortedDesc(keys)[i]
  {
    TopOfDescending(SortedDesc(keys), TopCount, i, x);
  }

  // ---------------------------------------------------------------- the two joins

  /** A value of `bigtransdict`: a record, or the bare text `form345names` stores at top level. */
  datatype Entry<R> = Rec(record: R) | Str(text: string)

  /** The state a join reached, and the exception that stopped it, if any. */
  datatype Joined<T> = Joined(state: T, failure: Option<Failure>)

  /** One data row of SUBMISSION.tsv applied to the records' contents. */
  function SubmissionStep(view: map<string, Entry<Fields>>, la: seq<string>): Joined<map<string, Entry<Fields>>>
    requires |la| >= 1
  {
    var an := la[0];
    if an !in view then Joined(view, None)
    else if |la| <= SymbolColumn then Joined(view, Some(IndexError))
    else match view[an]
      case Str(_) => Joined(view, Some(TypeError))
      case Rec(f) => Joined(view[an := Rec(f[Symbol := la[SymbolColumn]])], None)
  }

  /** `form345submissions` over `lines[..n]`, the first line its header. */
  function JoinSubmissions(view: map<string, Entry<Fields>>, lines: seq<string>, n: nat): Joined<map<string, Entry<Fields>>>
    requires n <= |lines|
    decreases n
  {
    if n <= 1 then Joined(view, None)
    else
      var p := JoinSubmissions(view, lines, n - 1);
      if p.failure.Some? then p else SubmissionStep(p.state, Cells(lines[n - 1]))
  }

  /** Column 11 of the last data row in `lines[1..n]` whose column 0 is `an`, if it has one. */
  function LastSymbol(lines: seq<string>, n: nat, an: string): Option<string>
    requires n <= |lines|
    decreases n
  {
    if n <= 1 then None
    else
      var la := Cells(lines[n - 1]);
      if la[0] == an && |la| > SymbolColumn then Some(la[SymbolColumn]) else LastSymbol(lines, n - 1, an)
  }

  /**
   * The submissions join leaves every key and every bare text alone; a record
   * changes only in ISSUERTRADINGSYMBOL, which becomes column 11 of the last
   * submission row carrying its key.
   */
  lemma {:induction false} JoinSubmissionsEffect(view: map<string, Entry<Fields>>, lines: seq<string>, n: nat)
    requires n <= |lines|
    requires JoinSubmissions(view, lines, n).failure.None?
    ensures var s := JoinSubmissions(view, lines, n).state;
      s.Keys == view.Keys
      && forall an :: an in view ==>
        s[an] == match view[an]
          case Str(t) => Str(t)
          case Rec(f) => (match LastSymbol(lines, n, an)
            case None => Rec(f)
            case Some(v) => Rec(f[Symbol := v]))
    decreases n
  {
    if n > 1 {
      JoinSubmissionsEffect(view, lines, n - 1);
      var p := JoinSubmissions(view, lines, n - 1);
      var la := Cells(lines[n - 1]);
      forall an | an in view
        ensures JoinSubmissions(view, lines, n).state[an] == match view[an]
          case Str(t) => Str(t)
          case Rec(f) => (match LastSymbol(lines, n, an)
            case None => Rec(f)
            case Some(v) => Rec(f[Symbol := v]))
      {
        assert an in p.state;
        if la[0] == an {
          assert |la| > SymbolColumn;
          assert LastSymbol(lines, n, an) == Some(la[SymbolColumn]);
          match view[an]
          case Str(t) =>
          case Rec(f) =>
            match LastSymbol(lines, n - 1, an)
            case None =>
            case Some(v) =>
              assert f[Symbol := v][Symbol := la[SymbolColumn]] == f[Symbol := la[SymbolColumn]];
        } else {
          assert LastSymbol(lines, n, an) == LastSymbol(lines, n - 1, an);
        }
      }
    }
  }

  /**
   * On every run, one that raises part-way included, the submissions join
   * keeps the keys and the bare texts, and changes a record only under
   * ISSUERTRADINGSYMBOL; the only exceptions are IndexError on a short
   * matching row and TypeError on a key that holds text.
   */
  lemma {:induction false} JoinSubmissionsFrame(view: map<string, Entry<Fields>>, lines: seq<string>, n: nat)
    requires n <= |lines|
    ensures var j := JoinSubmissions(view, lines, n);
      && j.state.Keys == view.Keys
      && (forall an :: an in view && view[an].Str? ==> j.state[an] == view[an])
      && (forall an :: an in view && view[an].Rec? ==>
            j.state[an].Rec? && j.state[an].record - {Symbol} == view[an].record - {Symbol})
      && (j.failure.Some? ==> j.failure.value in {IndexError, TypeError})
    decreases n
  {
    if n > 1 {
      JoinSubmissionsFrame(view, lines, n - 1);
      var p := JoinSubmissions(view, lines, n - 1);
      if p.failure.None? {
        var la := Cells(lines[n - 1]);
        if la[0] in p.state && |la| > SymbolColumn && p.state[la[0]].Rec? {
          var f := p.state[la[0]].record;
          assert f[Symbol := la[SymbolColumn]] - {Symbol} == f - {Symbol};
        }
      }
    }
  }

  /** A record keeps every field but ISSUERTRADINGSYMBOL through the submissions join, even one that raises. */
  lemma SubmissionsKeepAccession(view: map<string, Entry<Fields>>, lines: seq<string>, an: string)
    requires an in view && view[an].Rec?
    ensures var s := JoinSubmissions(view, lines, |lines|).state;
      an in s && s[an].Rec? && s[an].record - {Symbol} == view[an].record - {Symbol}
  {
    JoinSubmissionsFrame(view, lines, |lines|);
  }

  /** One data row of REPORTINGOWNER.tsv: sets two top-level keys, not the record's fields. */
  function NamesStep<R>(dict: map<string, Entry<R>>, la: seq<string>): Joined<map<string, Entry<R>>>
    requires |la| >= 1
  {
    if la[0] !in dict then Joined(dict, None)
    else if |la| < 2 then Joined(dict, Some(IndexError))
    else
      var d1 := dict[OwnerCik := Str(la[1])];
      if |la| < 3 then Joined(d1, Some(IndexError))
      else Joined(d1[OwnerName := Str(la[2])], None)
  }

  /** `form345names` over `lines[..n]`, the first line its header. */
  function JoinNames<R>(dict: map<string, Entry<R>>, lines: seq<string>, n: nat): Joined<map<string, Entry<R>>>
    requires n <= |lines|
    decreases n
  {
    if n <= 1 then Joined(dict, None)
    else
      var p := JoinNames(dict, lines, n - 1);
      if p.failure.Some? then p else NamesStep(p.state, Cells(lines[n - 1]))
  }

  /**
   * The cells of the last data row in `lines[1..n]` that `form345names`
   * matches: its column 0 is one of `keys`, or one of the two owner keys once
   * an earlier row has matched and so created them.
   */
  function LastOwner(keys: set<string>, lines: seq<string>, n: nat): Option<seq<string>>
    requires n <= |lines|
    decreases n
  {
    if n <= 1 then None
    else
      var p := LastOwner(keys, lines, n - 1);
      var la := Cells(lines[n - 1]);
      if la[0] in keys || (p.Some? && (la[0] == OwnerCik || la[0] == OwnerName)) then Some(la) else p
  }

  /**
   * The names join never touches an entry other than the two top-level keys
   * RPTOWNERCIK and RPTOWNERNAME, and what it puts there is bare text. A run
   * that does not raise leaves columns 1 and 2 of the last matching row under
   * those keys, or the dictionary as it was when no row matches; the only
   * exception it raises is IndexError, on a matching row that is too short.
   */
  lemma JoinNamesEffect<R>(dict: map<string, Entry<R>>, lines: seq<string>, n: nat)
    requires n <= |lines|
    ensures var s := JoinNames(dict, lines, n).state;
      && dict.Keys <= s.Keys <= dict.Keys + {OwnerCik, OwnerName}
      && (forall k :: k in dict && k != OwnerCik && k != OwnerName ==> s[k] == dict[k])
      && (forall k :: k in s && (k == OwnerCik || k == OwnerName) ==> s[k].Str? || (k in dict && s[k] == dict[k]))
    ensures JoinNames(dict, lines, n).failure.Some? ==> JoinNames(dict, lines, n).failure == Some(IndexError)
    ensures JoinNames(dict, lines, n).failure.None? ==>
      var s := JoinNames(dict, lines, n).state;
      match LastOwner(dict.Keys, lines, n)
      case None => s == dict
      case Some(la) => |la| >= 3 && s == dict[OwnerCik := Str(la[1])][OwnerName := Str(la[2])]
  {
    JoinNamesFrame(dict, lines, n);
    JoinNamesLastOwner(dict, lines, n);
  }

  /** The frame half of JoinNamesEffect. */
  lemma {:induction false} JoinNamesFrame<R>(dict: map<string, Entry<R>>, lines: seq<string>, n: nat)
    requires n <= |lines|
    ensures var s := JoinNames(dict, lines, n).state;
      && dict.Keys <= s.Keys <= dict.Keys + {OwnerCik, OwnerName}
      && (forall k :: k in dict && k != OwnerCik && k != OwnerName ==> s[k] == dict[k])
      && (forall k :: k in s && (k == OwnerCik || k == OwnerName) ==> s[k].Str? || (k in dict && s[k] == dict[k]))
    decreases n
  {
    if n > 1 {
      JoinNamesFrame(dict, lines, n - 1);
    }
  }

  /** The stored-values half of JoinNamesEffect. */
  lemma {:induction false} JoinNamesLastOwner<R>(dict: map<string, Entry<R>>, lines: seq<string>, n: nat)
    requires n <= |lines|
    ensures JoinNames(dict, lines, n).failure.Some? ==> JoinNames(dict, lines, n).failure == Some(IndexError)
    ensures JoinNames(dict, lines, n).failure.None? ==>
      var s := JoinNames(dict, lines, n).state;
      match LastOwner(dict.Keys, lines, n)
      case None => s == dict
      case Some(la) => |la| >= 3 && s == dict[OwnerCik := Str(la[1])][OwnerName := Str(la[2])]
    decreases n
  {
    if n > 1 {
      JoinNamesLastOwner(dict, lines, n - 1);
      var p := JoinNames(dict, lines, n - 1);
      if p.failure.None? {
        var la := Cells(lines[n - 1]);
        var prev := LastOwner(dict.Keys, lines, n - 1);
        assert la[0] in p.state <==> la[0] in dict || (prev.Some? && (la[0] == OwnerCik || la[0] == OwnerName));
        if la[0] in p.state && |la| >= 3 {
          match prev
          case None =>
          case Some(lb) =>
            assert p.state[OwnerCik := Str(la[1])][OwnerName := Str(la[2])]
              == dict[OwnerCik := Str(la[1])][OwnerName := Str(la[2])];
        }
      }
    }
  }

  // ---------------------------------------------------------------- an exception ends a fold

  lemma {:induction false} BuildFieldsStops(hdr: seq<string>, la: seq<string>, i: nat, n: nat)
    requires i <= n <= |hdr|
    requires BuildFields(hdr, la, i).Err?
    ensures BuildFields(hdr, la, n) == BuildFields(hdr, la, i)
    decreases n
  {
    if n > i { BuildFieldsStops(hdr, la, i, n - 1); }
  }

  lemma {:induction false} CollectRowsStops(lay: Layout, lines: seq<string>, i: nat, n: nat, fp: FloatOps)
    requires 1 <= i <= n <= |lines|
    requires CollectRows(lay, lines, i, fp).Err?
    ensures CollectRows(lay, lines, n, fp) == CollectRows(lay, lines, i, fp)
    decreases n
  {
    if n > i { CollectRowsStops(lay, lines, i, n - 1, fp); }
  }

  lemma {:induction false} JoinSubmissionsStops(view: map<string, Entry<Fields>>, lines: seq<string>, i: nat, n: nat)
    requires i <= n <= |lines|
    requires JoinSubmissions(view, lines, i).failure.Some?
    ensures JoinSubmissions(view, lines, n) == JoinSubmissions(view, lines, i)
    decreases n
  {
    if n > i { JoinSubmissionsStops(view, lines, i, n - 1); }
  }

  lemma {:induction false} JoinNamesStops<R>(dict: map<string, Entry<R>>, lines: seq<string>, i: nat, n: nat)
    requires i <= n <= |lines|
    requires JoinNames(dict, lines, i).failure.Some?
    ensures JoinNames(dict, lines, n) == JoinNames(dict, lines, i)
    decreases n
  {
    if n > i { JoinNamesStops(dict, lines, i, n - 1); }
  }
}

/**
 * `EDGARInsiderTrading`: the object that ranks a quarter's Form 3/4/5
 * transactions by dollar amount and joins the largest ones with their
 * submissions and reporting owners. Each record (`th`) is one shared object:
 * `transtop` and `bigtransdict` hold the same records, so the submissions
 * join, which writes through `bigtransdict`, is seen through `transtop` too.
 */
module EdgarInsider {
  import opened Base
  import opened Text
  import opened Form345
  import opened Retry

  /** One transaction record, a dict shared by reference. */
  class Record {
    var fields: Fields

    constructor (f: Fields)
      ensures fields == f
    {
      fields := f;
    }
  }

  /** The contents of a run of records. */
  ghost function FieldsOf(rs: seq<Record>): (fs: seq<Fields>)
    reads set r | r in rs
    ensures |fs| == |rs| && forall i :: 0 <= i < |rs| ==> fs[i] == rs[i].fields
    decreases |rs|
  {
    if rs == [] then [] else FieldsOf(rs[..|rs| - 1]) + [rs[|rs| - 1].fields]
  }

  /** The records held by `prtransdict`. */
  ghost function Held(m: map<real, seq<Record>>): set<Record> {
    set a, x | a in m && x in m[a] :: x
  }

  /** The contents of `prtransdict` when its buckets hold records. */
  ghost function BucketView(m: map<real, seq<Record>>): (b: Buckets)
    reads Held(m)
    ensures b.Keys == m.Keys
  {
    map a | a in m :: FieldsOf(m[a])
  }

  /** A change that leaves the records of `m` alone leaves its contents alone. */
  twostate lemma BucketViewFrame(m: map<real, seq<Record>>)
    requires unchanged(Held(m))
    ensures BucketView(m) == old(BucketView(m))
  {
  }

  /** The records of `transtop` in the order the indexing loops visit them. */
  function Flatten(tt: seq<seq<Record>>): seq<Record>
    decreases |tt|
  {
    if tt == [] then [] else Flatten(tt[..|tt| - 1]) + tt[|tt| - 1]
  }

  lemma {:induction false} FlattenAppend(a: seq<seq<Record>>, b: seq<seq<Record>>)
    ensures Flatten(a + b) == Flatten(a) + Flatten(b)
    decreases |b|
  {
    if b != [] {
      FlattenAppend(a, b[..|b| - 1]);
      assert (a + b)[..|a + b| - 1] == a + b[..|b| - 1];
    } else {
      assert a + b == a;
    }
  }

  /** `bigtransdict[amt['ACCESSION_NUMBER']] = amt` for each record in turn, or the KeyError of one without. */
  ghost function IndexRecords(dict: map<string, Entry<Record>>, rs: seq<Record>): Joined<map<string, Entry<Record>>>
    reads set r | r in rs
    decreases |rs|
  {
    if rs == [] then Joined(dict, None)
    else
      var p := IndexRecords(dict, rs[..|rs| - 1]);
      var r := rs[|rs| - 1];
      if p.failure.Some? then p
      else if Accession !in r.fields then Joined(p.state, Some(KeyError(Accession)))
      else Joined(p.state[r.fields[Accession] := Rec(r)], None)
  }

  lemma {:induction false} IndexRecordsStops(dict: map<string, Entry<Record>>, rs: seq<Record>, i: nat)
    requires i <= |rs|
    requires IndexRecords(dict, rs[..i]).failure.Some?
    ensures IndexRecords(dict, rs) == IndexRecords(dict, rs[..i])
    decreases |rs|
  {
    if i < |rs| {
      assert rs[..|rs| - 1][..i] == rs[..i];
      IndexRecordsStops(dict, rs[..|rs| - 1], i);
    } else {
      assert rs[..i] == rs;
    }
  }

  lemma IndexRecordsSnoc(dict: map<string, Entry<Record>>, rs: seq<Record>, r: Record)
    ensures IndexRecords(dict, rs + [r]) ==
      var p := IndexRecords(dict, rs);
      if p.failure.Some? then p
      else if Accession !in r.fields then Joined(p.state, Some(KeyError(Accession)))
      else Joined(p.state[r.fields[Accession] := Rec(r)], None)
  {
    assert (rs + [r])[..|rs|] == rs;
  }

  /** The position of the last record whose accession number is `key`, or -1. */
  ghost function LastWith(rs: seq<Record>, key: string): (j: int)
    reads set r | r in rs
    ensures -1 <= j < |rs|
    ensures j >= 0 ==> Accession in rs[j].fields && rs[j].fields[Accession] == key
    ensures forall l :: j < l < |rs| ==> Accession !in rs[l].fields || rs[l].fields[Accession] != key
    decreases |rs|
  {
    if rs == [] then -1
    else
      var r := rs[|rs| - 1];
      if Accession in r.fields && r.fields[Accession] == key then |rs| - 1
      else LastWith(rs[..|rs| - 1], key)
  }

  /**
   * Indexing that runs to the end leaves under each key the last record
   * carrying it as accession number (a later record overwrites an earlier
   * one), and every other entry as it was.
   */
  lemma {:induction false} IndexRecordsEffect(dict: map<string, Entry<Record>>, rs: seq<Record>)
    requires IndexRecords(dict, rs).failure.None?
    ensures forall i :: 0 <= i < |rs| ==> Accession in rs[i].fields
    ensures var s := IndexRecords(dict, rs).state;
      forall key :: (key in s <==> key in dict || LastWith(rs, key) >= 0)
        && (key in s ==> s[key] == if LastWith(rs, key) >= 0 then Rec(rs[LastWith(rs, key)]) else dict[key])
    decreases |rs|
  {
    if rs != [] {
      var init := rs[..|rs| - 1];
      IndexRecordsEffect(dict, init);
      forall i | 0 <= i < |rs| ensures Accession in rs[i].fields {
        if i < |init| { assert init[i] == rs[i]; }
      }
    }
  }

  /** The header loop of `form345largesttrades`. */
  method ScanHeader(header: seq<string>) returns (lay: Layout)
    ensures lay == LayoutOf(header)
  {
    var trsidx, trpidx, trdidx := 0, 0, 0;
    for i := 0 to |header|
      invariant trsidx == LastIndex(header[..i], Shares)
      invariant trpidx == LastIndex(header[..i], Price)
    {
      assert header[..i + 1][..i] == header[..i];
      if header[i] == Shares { trsidx := i; }
      if header[i] == Price { trpidx := i; }
      if header[i] == TransDate { trdidx := i; }
    }
    assert header[..|header|] == header;
    lay := Layout(header, trsidx, trpidx);
  }

  /** The loop that builds one record `th` from a data row. */
  method BuildRecordFields(header: seq<string>, la: seq<string>) returns (r: Result<Fields>)
    ensures r == BuildFields(header, la, |header|)
  {
    var th: Fields := map[];
    for i := 0 to |header|
      invariant BuildFields(header, la, i) == Ok(th)
    {
      if i >= |la| {
        BuildFieldsStops(header, la, i + 1, |header|);
        return Err(IndexError);
      }
      if la[i] == "" {
        continue;
      }
      ghost var th0 := th;
      th := th[header[i] := la[i]];
      if header[i] == TransDate {
        var da := Split(la[i], '-');
        if |da| < 3 {
          BuildFieldsStops(header, la, i + 1, |header|);
          return Err(IndexError);
        }
        if da[1] !in MonthCodes {
          BuildFieldsStops(header, la, i + 1, |header|);
          return Err(KeyError(da[1]));
        }
        var converted := da[2] + "-" + MonthCodes[da[1]] + "-" + da[0];
        assert ConvertTransDate(la[i]) == Ok(converted);
        th := th[header[i] := converted];
        assert th == th0[header[i] := converted];
      }
    }
    return Ok(th);
  }

  lemma HeldNewBucket(m: map<real, seq<Record>>, t: real)
    requires t !in m
    ensures Held(m[t := []]) == Held(m)
  {
    var m' := m[t := []];
    forall x | x in Held(m') ensures x in Held(m) {
      var a :| a in m' && x in m'[a];
      assert a != t && a in m && x in m[a];
    }
    forall x | x in Held(m) ensures x in Held(m') {
      var a :| a in m && x in m[a];
      assert a in m' && x in m'[a];
    }
  }

  /** The checks of the row loop of `form345largesttrades` before a record is built. */
  method Screen(lay: Layout, la: seq<string>, fp: FloatOps) returns (s: Screened)
    ensures s == ScreenRow(lay, la, fp)
  {
    if |la| < lay.priceAt + 1 {
      return Skip;
    }
    if lay.sharesAt >= |la| {
      return Raise(IndexError);
    }
    if la[lay.sharesAt] == "" || la[lay.priceAt] == "" {
      return Skip;
    }
    var shares := fp.parse(la[lay.sharesAt]);
    if shares.None? {
      return Raise(ValueError);
    }
    var price := fp.parse(la[lay.priceAt]);
    if price.None? {
      return Raise(ValueError);
    }
    return Amount(fp.times(shares.value, price.value));
  }

  /** The body of the row loop of `form345largesttrades`, for one data row. */
  method CollectRow(lay: Layout, la: seq<string>, fp: FloatOps, prtransdict: map<real, seq<Record>>)
    returns (r: Result<map<real, seq<Record>>>)
    ensures ClassifyRow(lay, la, fp).Failed? ==> r == Err(ClassifyRow(lay, la, fp).failure)
    ensures !ClassifyRow(lay, la, fp).Failed? ==>
      r.Ok? && BucketView(r.value) == AddOutcome(old(BucketView(prtransdict)), ClassifyRow(lay, la, fp))
    ensures r.Ok? ==> fresh(Held(r.value) - Held(prtransdict))
  {
    var screened := Screen(lay, la, fp);
    match screened {
      case Skip =>
        return Ok(prtransdict);
      case Raise(e) =>
        return Err(e);
      case Amount(transdollars) =>
        r := BucketRow(transdollars, lay.header, la, prtransdict);
    }
  }

  /** The row loop's body once the row has its dollar amount. */
  method BucketRow(transdollars: real, header: seq<string>, la: seq<string>, prtransdict: map<real, seq<Record>>)
    returns (r: Result<map<real, seq<Record>>>)
    ensures ClassifyAmount(transdollars, header, la).Failed? ==> r == Err(ClassifyAmount(transdollars, header, la).failure)
    ensures !ClassifyAmount(transdollars, header, la).Failed? ==>
      r.Ok? && BucketView(r.value) == AddOutcome(old(BucketView(prtransdict)), ClassifyAmount(transdollars, header, la))
    ensures r.Ok? ==> fresh(Held(r.value) - Held(prtransdict))
  {
    if transdollars == 0.0 {
      return Ok(prtransdict);
    }
    ghost var before := BucketView(prtransdict);
    var buckets := prtransdict;
    if transdollars !in buckets {
      buckets := buckets[transdollars := []];
      assert BucketView(buckets) == before[transdollars := []];
      HeldNewBucket(prtransdict, transdollars);
    }
    ghost var widened := BucketView(buckets);
    assert widened == (if transdollars in before then before else before[transdollars := []]);
    var th := BuildRecordFields(header, la);
    ghost var o := ClassifyRecord(transdollars, th);
    assert ClassifyAmount(transdollars, header, la) == o;
    if !o.Failed? {
      AddOutcomeNewBucket(before, transdollars, o);
    }
    r := AddRecord(transdollars, th, buckets);
  }

  lemma AddOutcomeNewBucket(b: Buckets, t: real, o: RowOutcome)
    requires o.Kept? || o.Filtered?
    requires o.amount == t
    ensures AddOutcome(b, o) == AddOutcome(if t in b then b else b[t := []], o)
  {
  }

  /** The end of the row loop's body: the title check, then the append to the bucket `transdollars`. */
  method AddRecord(transdollars: real, th: Result<Fields>, buckets: map<real, seq<Record>>)
    returns (r: Result<map<real, seq<Record>>>)
    requires transdollars != 0.0 && transdollars in buckets
    ensures ClassifyRecord(transdollars, th).Failed? ==> r == Err(ClassifyRecord(transdollars, th).failure)
    ensures !ClassifyRecord(transdollars, th).Failed? ==>
      r.Ok? && BucketView(r.value) == AddOutcome(old(BucketView(buckets)), ClassifyRecord(transdollars, th))
    ensures r.Ok? ==> fresh(Held(r.value) - Held(buckets))
  {
    if th.Err? {
      return Err(th.failure);
    }
    if Title !in th.value {
      return Err(KeyError(Title));
    }
    if !TitleMatches(th.value[Title]) {
      return Ok(buckets);
    }
    var appended := AppendRecord(buckets, transdollars, th.value);
    return Ok(appended);
  }

  /** `prtransdict[transdollars].append(th)`: a new record holding `f` at the end of bucket `t`. */
  method AppendRecord(buckets: map<real, seq<Record>>, t: real, f: Fields) returns (appended: map<real, seq<Record>>)
    requires t in buckets
    ensures BucketView(appended) == old(BucketView(buckets))[t := old(BucketView(buckets))[t] + [f]]
    ensures fresh(Held(appended) - Held(buckets))
  {
    var rec := new Record(f);
    BucketViewFrame(buckets);
    appended := buckets[t := buckets[t] + [rec]];
    BucketViewAppend(buckets, t, rec);
  }

  /** Appending one record to a bucket appends its fields to that bucket's view. */
  lemma BucketViewAppend(buckets: map<real, seq<Record>>, t: real, rec: Record)
    requires t in buckets
    ensures BucketView(buckets[t := buckets[t] + [rec]]) == BucketView(buckets)[t := BucketView(buckets)[t] + [rec.fields]]
    ensures Held(buckets[t := buckets[t] + [rec]]) <= Held(buckets) + {rec}
  {
    assert FieldsOf(buckets[t] + [rec]) == FieldsOf(buckets[t]) + [rec.fields];
  }

  /** The row loop of `form345largesttrades`: `prtransdict`, with fresh records in its buckets. */
  method CollectBuckets(lines: seq<string>, fp: FloatOps) returns (r: Result<map<real, seq<Record>>>)
    ensures Collect(lines, fp).Err? ==> r == Err(Collect(lines, fp).failure)
    ensures Collect(lines, fp).Ok? ==> r.Ok? && BucketView(r.value) == Collect(lines, fp).value
    ensures r.Ok? ==> fresh(Held(r.value))
  {
    var prtransdict: map<real, seq<Record>> := map[];
    var hdr: seq<string> := [];
    var lay := Layout([], 0, 0);
    for n := 0 to |lines|
      invariant n == 0 ==> hdr == [] && prtransdict == map[]
      invariant n > 0 ==> hdr == Cells(lines[0]) && lay == LayoutOf(hdr)
      invariant n > 0 ==> CollectRows(lay, lines, n, fp) == Ok(BucketView(prtransdict))
      invariant fresh(Held(prtransdict))
    {
      var la := Cells(lines[n]);
      if |hdr| == 0 {
        hdr := la;
        lay := ScanHeader(hdr);
        continue;
      }
      ghost var o := ClassifyRow(lay, la, fp);
      ghost var before := BucketView(prtransdict);
      assert CollectRows(lay, lines, n + 1, fp) == if o.Failed? then Err(o.failure) else Ok(AddOutcome(before, o));
      var next := CollectRow(lay, la, fp, prtransdict);
      if next.Err? {
        CollectRowsStops(lay, lines, n + 1, |lines|, fp);
        return next;
      }
      prtransdict := next.value;
    }
    if |lines| == 0 {
      return Ok(map[]);
    }
    return Ok(prtransdict);
  }

  /** `(year, quarter)` of the data set `genform345name` names. */
  datatype Period = Period(year: int, quarter: int)

  /**
   * The period `genform345name` picks in a given month of a year: the fourth
   * quarter of the previous year in January and February, the second, third
   * or fourth quarter of the same year otherwise; never the first.
   */
  function DatasetPeriod(year: int, month: int): (p: Period)
    requires 1 <= month <= 12
    ensures p.quarter in {2, 3, 4}
    ensures p.year == year - 1 <==> month < 3
    ensures p.year == year || p.year == year - 1
  {
    if month < 3 then Period(year - 1, 4)
    else if month < 6 then Period(year, 2)
    else if month < 9 then Period(year, 3)
    else Period(year, 4)
  }

  /** `'%dq%d_form345.zip' % (year, qtr)`; `datetime.now()` is the parameters. */
  function Form345Name(year: int, month: int): string
    requires 1 <= month <= 12
  {
    var p := DatasetPeriod(year, month);
    Decimal(p.year) + "q" + Decimal(p.quarter) + "_form345.zip"
  }

  /** The name splits at its one 'q' into the year and the quarter part. */
  lemma Form345NameParts(year: int, month: int)
    requires 1 <= month <= 12
    ensures var p := DatasetPeriod(year, month);
      Split(Form345Name(year, month), 'q') == [Decimal(p.year), Decimal(p.quarter) + "_form345.zip"]
  {
    var p := DatasetPeriod(year, month);
    var parts := [Decimal(p.year), Decimal(p.quarter) + "_form345.zip"];
    assert parts[1..] == [parts[1]];
    assert Form345Name(year, month) == Join(parts, "q");
    assert 'q' !in Decimal(p.year);
    assert 'q' !in parts[1];
    SplitJoin(parts, 'q');
  }

  /** Two months that give the same file name give the same period: the name identifies the data set. */
  lemma Form345NameDeterminesPeriod(y1: int, m1: int, y2: int, m2: int)
    requires 1 <= m1 <= 12 && 1 <= m2 <= 12
    requires Form345Name(y1, m1) == Form345Name(y2, m2)
    ensures DatasetPeriod(y1, m1) == DatasetPeriod(y2, m2)
  {
    var p1, p2 := DatasetPeriod(y1, m1), DatasetPeriod(y2, m2);
    Form345NameParts(y1, m1);
    Form345NameParts(y2, m2);
    DecimalInjective(p1.year, p2.year);
    assert Decimal(p1.quarter) == (Decimal(p1.quarter) + "_form345.zip")[..1];
    assert Decimal(p2.quarter) == (Decimal(p2.quarter) + "_form345.zip")[..1];
    DecimalInjective(p1.quarter, p2.quarter);
  }

  /** The values under the 100 largest keys, largest key first (all of them when there are fewer). */
  function Largest<V>(m: map<real, V>): (top: seq<V>)
    ensures |top| == if |m.Keys| < TopCount then |m.Keys| else TopCount
    ensures forall j :: 0 <= j < |top| ==> top[j] == m[SortedDesc(m.Keys)[j]]
  {
    var skl := SortedDesc(m.Keys);
    var n := if |skl| < TopCount then |skl| else TopCount;
    ValuesAt(m, skl[..n])
  }

  /** The values under the keys `ks`, in their order. */
  function ValuesAt<V>(m: map<real, V>, ks: seq<real>): (vs: seq<V>)
    requires forall j :: 0 <= j < |ks| ==> ks[j] in m
    ensures |vs| == |ks| && forall j :: 0 <= j < |ks| ==> vs[j] == m[ks[j]]
    decreases |ks|
  {
    if ks == [] then [] else ValuesAt(m, ks[..|ks| - 1]) + [m[ks[|ks| - 1]]]
  }

  /** The records in a run of buckets. */
  ghost function Among(tt: seq<seq<Record>>): set<Record> {
    set t, r | t in tt && r in t :: r
  }

  /** A change that leaves the records of `tt` alone leaves their contents alone. */
  twostate lemma TopViewFrame(tt: seq<seq<Record>>)
    requires unchanged(Among(tt))
    ensures TopView(tt) == old(TopView(tt))
  {
  }

  /** The contents of the buckets in `transtop`. */
  ghost function TopView(tt: seq<seq<Record>>): (v: seq<seq<Fields>>)
    reads Among(tt)
    ensures |v| == |tt| && forall i :: 0 <= i < |tt| ==> v[i] == FieldsOf(tt[i])
    decreases |tt|
  {
    if tt == [] then [] else TopView(tt[..|tt| - 1]) + [FieldsOf(tt[|tt| - 1])]
  }

  lemma LargestView(m: map<real, seq<Record>>)
    ensures TopView(Largest(m)) == Largest(BucketView(m))
  {
    assert BucketView(m).Keys == m.Keys;
  }

  /** Appending the largest buckets of `m` to `tt` adds their contents and nothing else. */
  lemma AppendedView(tt: seq<seq<Record>>, m: map<real, seq<Record>>)
    ensures TopView((tt + Largest(m))[|tt|..]) == Largest(BucketView(m))
  {
    assert (tt + Largest(m))[|tt|..] == Largest(m);
    LargestView(m);
  }

  /** Appending the largest buckets of `m` adds records held by `m` and no others. */
  lemma AmongLargest(tt: seq<seq<Record>>, m: map<real, seq<Record>>)
    ensures Among(tt + Largest(m)) <= Among(tt) + Held(m)
  {
    var top := Largest(m);
    forall r | r in Among(tt + top) ensures r in Among(tt) || r in Held(m) {
      var t :| t in tt + top && r in t;
      if t !in tt {
        var j :| 0 <= j < |top| && top[j] == t;
        assert SortedDesc(m.Keys)[j] in m;
      }
    }
  }

  /** The records the indexing loops visit are the records of `transtop`. */
  lemma {:induction false} FlattenAmong(tt: seq<seq<Record>>)
    ensures forall r :: r in Flatten(tt) ==> r in Among(tt)
    decreases |tt|
  {
    if tt != [] {
      FlattenAmong(tt[..|tt| - 1]);
      assert forall t :: t in tt[..|tt| - 1] ==> t in tt;
    }
  }

  /** The records a dictionary shaped like `bigtransdict` holds. */
  ghost function RecordsIn(d: map<string, Entry<Record>>): set<Record> {
    set k | k in d && d[k].Rec? :: d[k].record
  }

  /** Indexing adds to the dictionary only records it visits. */
  lemma {:induction false} IndexRecordsHolds(dict: map<string, Entry<Record>>, rs: seq<Record>)
    ensures forall r :: r in RecordsIn(IndexRecords(dict, rs).state) ==> r in RecordsIn(dict) || r in rs
    decreases |rs|
  {
    if rs != [] {
      var init := rs[..|rs| - 1];
      IndexRecordsHolds(dict, init);
      assert forall r :: r in init ==> r in rs;
    }
  }

  /** Every record in `d` sits under its own accession number. */
  ghost predicate Keyed(d: map<string, Entry<Record>>)
    reads RecordsIn(d)
  {
    forall k :: k in d && d[k].Rec? ==> Accession in d[k].record.fields && d[k].record.fields[Accession] == k
  }

  /** Indexing keeps every record under its own accession number. */
  lemma {:induction false} IndexRecordsKeyed(dict: map<string, Entry<Record>>, rs: seq<Record>)
    requires Keyed(dict)
    ensures Keyed(IndexRecords(dict, rs).state)
    decreases |rs|
  {
    if rs != [] {
      IndexRecordsKeyed(dict, rs[..|rs| - 1]);
    }
  }

  /** The inner indexing loop, over the records of one bucket, on the dictionary `d`; `done` are the records indexed before. */
  method IndexBucket(d: map<string, Entry<Record>>, amta: seq<Record>, ghost dict0: map<string, Entry<Record>>, ghost done: seq<Record>)
    returns (d': map<string, Entry<Record>>, failure: Option<Failure>)
    requires IndexRecords(dict0, done) == Joined(d, None)
    ensures IndexRecords(dict0, done + amta) == Joined(d', failure)
  {
    assert done + amta[..0] == done;
    d' := d;
    var j := 0;
    while j < |amta|
      invariant 0 <= j <= |amta|
      invariant IndexRecords(dict0, done + amta[..j]) == Joined(d', None)
    {
      var amt := amta[j];
      ghost var prefix := done + amta[..j + 1];
      assert prefix == (done + amta[..j]) + [amt];
      IndexRecordsSnoc(dict0, done + amta[..j], amt);
      if Accession !in amt.fields {
        assert prefix == (done + amta)[..|prefix|];
        IndexRecordsStops(dict0, done + amta, |prefix|);
        return d', Some(KeyError(Accession));
      }
      d' := d'[amt.fields[Accession] := Rec(amt)];
      j := j + 1;
    }
    assert amta[..j] == amta;
    return d', None;
  }

  /** The loop of `form345largesttrades` that collects the buckets of the 100 largest amounts, largest first. */
  method Appended(prtransdict: map<real, seq<Record>>) returns (appended: seq<seq<Record>>)
    ensures appended == Largest(prtransdict)
  {
    var skl := SortedDesc(prtransdict.Keys);
    appended := [];
    var i := 0;
    while i < TopCount && i < |skl|
      invariant i <= |skl| && i <= TopCount && |appended| == i
      invariant forall j :: 0 <= j < i ==> appended[j] == prtransdict[skl[j]]
    {
      appended := appended + [prtransdict[skl[i]]];
      i := i + 1;
    }
  }

  /** The two indexing loops of `form345largesttrades`, on the dictionary `dict` and the buckets `tt`. */
  method IndexAll(dict: map<string, Entry<Record>>, tt: seq<seq<Record>>)
    returns (d: map<string, Entry<Record>>, failure: Option<Failure>)
    ensures IndexRecords(dict, Flatten(tt)) == Joined(d, failure)
  {
    d := dict;
    failure := None;
    var t := 0;
    while t < |tt|
      invariant 0 <= t <= |tt| && failure.None?
      invariant IndexRecords(dict, Flatten(tt[..t])) == Joined(d, None)
    {
      var amta := tt[t];
      ghost var single: seq<seq<Record>> := [amta];
      assert tt[..t + 1] == tt[..t] + single;
      FlattenAppend(tt[..t], single);
      assert single[..0] == [];
      ghost var done := Flatten(tt[..t + 1]);
      assert done == Flatten(tt[..t]) + amta;
      d, failure := IndexBucket(d, amta, dict, Flatten(tt[..t]));
      if failure.Some? {
        FlattenAppend(tt[..t + 1], tt[t + 1..]);
        assert tt[..t + 1] + tt[t + 1..] == tt;
        assert done == Flatten(tt)[..|done|];
        IndexRecordsStops(dict, Flatten(tt), |done|);
        break;
      }
      t := t + 1;
    }
    if failure.None? {
      assert tt[..t] == tt;
    }
  }

  class EDGARInsiderTrading {
    /** The User-Agent from EQEMAIL; None when the variable is unset and the attribute never created. */
    var hdr: Option<string>
    var pause: int
    var transtop: seq<seq<Record>>
    var bigtransdict: map<string, Entry<Record>>

    /** The records `bigtransdict` holds. */
    ghost function DictRecords(): set<Record>
      reads this
    {
      RecordsIn(bigtransdict)
    }

    /** The records `transtop` holds. */
    ghost function TopRecords(): set<Record>
      reads this
    {
      Among(transtop)
    }

    /**
     * Every record in `bigtransdict` sits under its own accession number. So
     * no record sits under two keys, and writing through one key changes one entry.
     */
    ghost predicate Valid()
      reads this, DictRecords()
    {
      Keyed(bigtransdict)
    }

    /** `bigtransdict` with each record replaced by its contents. */
    ghost function View(): map<string, Entry<Fields>>
      reads this, DictRecords()
    {
      map k | k in bigtransdict :: match bigtransdict[k]
        case Rec(r) => Rec(r.fields)
        case Str(s) => Str(s)
    }

    /** `__init__`; `contact` is the EQEMAIL environment variable. */
    constructor (contact: Option<string>)
      ensures hdr == contact && pause == DefaultPause
      ensures transtop == [] && bigtransdict == map[]
      ensures Valid()
    {
      hdr := contact;
      pause := DefaultPause;
      transtop := [];
      bigtransdict := map[];
    }

    /** `query`; `attempt(k)` is what the `k`-th `urlopen` gives. */
    method Query(attempt: nat -> Attempt) returns (outcome: QueryOutcome, sleeps: seq<int>)
      ensures hdr.None? ==> outcome == Raised(AttributeError) && sleeps == []
      ensures hdr.Some? ==> Run(outcome, sleeps) == RetryFrom(attempt, pause, 0)
    {
      if hdr.None? {
        return Raised(AttributeError), [];
      }
      var count := 0;
      var max := MaxAttempts;
      var paws := pause;
      sleeps := [];
      while true
        invariant 0 <= count < max
        invariant RetryFrom(attempt, pause, 0) == Run(RetryFrom(attempt, paws, count).outcome, sleeps + RetryFrom(attempt, paws, count).sleeps)
        decreases max - count
      {
        match attempt(count) {
          case Response(b) =>
            return Returned(b), sleeps;
          case Other(f) =>
            return Raised(f), sleeps;
          case UrlError(_) =>
        }
        count := count + 1;
        if count < max {
          ghost var rest := RetryFrom(attempt, paws * 2, count);
          assert sleeps + ([paws] + rest.sleeps) == (sleeps + [paws]) + rest.sleeps;
          sleeps := sleeps + [paws];
          paws := paws * 2;
          continue;
        }
        return Exited(1), sleeps;
      }
    }

    /**
     * `form345largesttrades` on the lines of NONDERIV_TRANS.tsv: appends the
     * buckets of the 100 largest amounts to `transtop`, largest first, then
     * indexes every record of `transtop` by accession number.
     */
    method LargestTrades(lines: seq<string>, fp: FloatOps) returns (failure: Option<Failure>)
      requires Valid()
      modifies this
      ensures Valid()
      ensures hdr == old(hdr) && pause == old(pause)
      ensures Collect(lines, fp).Err? ==>
        failure == Some(Collect(lines, fp).failure) && transtop == old(transtop) && bigtransdict == old(bigtransdict)
      ensures Collect(lines, fp).Ok? ==>
        |old(transtop)| <= |transtop| && transtop[..|old(transtop)|] == old(transtop)
        && TopView(transtop[|old(transtop)|..]) == Largest(Collect(lines, fp).value)
      ensures Collect(lines, fp).Ok? && |Collect(lines, fp).value.Keys| < TopCount ==>
        failure == Some(IndexError) && bigtransdict == old(bigtransdict)
      ensures Collect(lines, fp).Ok? && |Collect(lines, fp).value.Keys| >= TopCount ==>
        IndexRecords(old(bigtransdict), Flatten(transtop)) == Joined(bigtransdict, failure)
      ensures DictRecords() <= old(DictRecords()) + TopRecords()
      ensures fresh(TopRecords() - old(TopRecords()))
    {
      var collected := CollectBuckets(lines, fp);
      if collected.Err? {
        return Some(collected.failure);
      }
      var prtransdict := collected.value;
      ghost var top0 := transtop;
      label collected:
      failure := TopTrades(prtransdict);
      AppendedView(top0, prtransdict);
      BucketViewFrame@collected(prtransdict);
    }

    /** What `form345largesttrades` does once `prtransdict`, whose contents are `buckets`, is complete. */
    method TopTrades(prtransdict: map<real, seq<Record>>) returns (failure: Option<Failure>)
      requires Valid()
      modifies this
      ensures Valid()
      ensures hdr == old(hdr) && pause == old(pause)
      ensures transtop == old(transtop) + Largest(prtransdict)
      ensures unchanged(Held(prtransdict))
      ensures |prtransdict.Keys| < TopCount ==> failure == Some(IndexError) && bigtransdict == old(bigtransdict)
      ensures |prtransdict.Keys| >= TopCount ==> IndexRecords(old(bigtransdict), Flatten(transtop)) == Joined(bigtransdict, failure)
      ensures DictRecords() <= old(DictRecords()) + TopRecords()
      ensures TopRecords() <= old(TopRecords()) + Held(prtransdict)
    {
      failure := AppendLargest(prtransdict);
      if failure.Some? {
        return;
      }
      failure := IndexTop();
    }

    /** `for i in range(100): self.transtop.append(prtransdict[skl[i]])`, `skl` the amounts largest first. */
    method AppendLargest(prtransdict: map<real, seq<Record>>) returns (failure: Option<Failure>)
      modifies this
      ensures hdr == old(hdr) && pause == old(pause) && bigtransdict == old(bigtransdict)
      ensures transtop == old(transtop) + Largest(prtransdict)
      ensures failure == if |prtransdict.Keys| < TopCount then Some(IndexError) else None
      ensures TopRecords() <= old(TopRecords()) + Held(prtransdict)
      ensures unchanged(Held(prtransdict))
    {
      var appended := Appended(prtransdict);
      failure := if |appended| < TopCount then Some(IndexError) else None;
      transtop := transtop + appended;
      AmongLargest(old(transtop), prtransdict);
    }

    /**
     * The loops that index every record of `transtop` under its accession
     * number; the dictionary is updated in a local and stored back on exit.
     */
    method IndexTop() returns (failure: Option<Failure>)
      requires Valid()
      modifies this
      ensures Valid()
      ensures hdr == old(hdr) && pause == old(pause) && transtop == old(transtop)
      ensures IndexRecords(old(bigtransdict), Flatten(transtop)) == Joined(bigtransdict, failure)
      ensures DictRecords() <= old(DictRecords()) + TopRecords()
      ensures unchanged(TopRecords())
    {
      var d;
      d, failure := IndexAll(bigtransdict, transtop);
      IndexRecordsKeyed(old(bigtransdict), Flatten(transtop));
      IndexRecordsHolds(old(bigtransdict), Flatten(transtop));
      FlattenAmong(transtop);
      bigtransdict := d;
    }

    /**
     * `form345submissions` on the lines of SUBMISSION.tsv: copies column 11
     * into ISSUERTRADINGSYMBOL of the record under each row's accession number.
     */
    method Submissions(lines: seq<string>) returns (failure: Option<Failure>)
      requires Valid()
      modifies DictRecords()
      ensures Valid()
      ensures JoinSubmissions(old(View()), lines, |lines|) == Joined(View(), failure)
    {
      ghost var view0 := View();
      var header: seq<string> := [];
      for n := 0 to |lines|
        invariant n == 0 ==> header == []
        invariant n > 0 ==> header != []
        invariant Valid()
        invariant JoinSubmissions(view0, lines, n) == Joined(View(), None)
      {
        var la := Cells(lines[n]);
        if |header| == 0 {
          header := la;
          continue;
        }
        var an := la[0];
        if an in bigtransdict {
          if |la| <= SymbolColumn {
            JoinSubmissionsStops(view0, lines, n + 1, |lines|);
            return Some(IndexError);
          }
          match bigtransdict[an] {
            case Str(_) =>
              JoinSubmissionsStops(view0, lines, n + 1, |lines|);
              return Some(TypeError);
            case Rec(r) =>
              SetSymbol(an, la[SymbolColumn]);
          }
        }
      }
      return None;
    }

    /** `self.bigtransdict[an]['ISSUERTRADINGSYMBOL'] = sym`, through the record stored under `an`. */
    method SetSymbol(an: string, sym: string)
      requires Valid() && an in bigtransdict && bigtransdict[an].Rec?
      modifies bigtransdict[an].record
      ensures Valid()
      ensures View() == old(View())[an := Rec(old(bigtransdict[an].record.fields)[Symbol := sym])]
    {
      var r := bigtransdict[an].record;
      r.fields := r.fields[Symbol := sym];
      forall k | k in bigtransdict && k != an && bigtransdict[k].Rec?
        ensures bigtransdict[k].record != r
      {
      }
    }

    /**
     * `form345names` on the lines of REPORTINGOWNER.tsv: for a row whose
     * accession number is a key, stores its columns 1 and 2 under the
     * top-level keys RPTOWNERCIK and RPTOWNERNAME.
     */
    method Names(lines: seq<string>) returns (failure: Option<Failure>)
      requires Valid()
      modifies this
      ensures Valid()
      ensures hdr == old(hdr) && pause == old(pause) && transtop == old(transtop)
      ensures JoinNames(old(bigtransdict), lines, |lines|) == Joined(bigtransdict, failure)
    {
      ghost var dict0 := bigtransdict;
      var header: seq<string> := [];
      for n := 0 to |lines|
        invariant n == 0 ==> header == []
        invariant n > 0 ==> header != []
        invariant Valid()
        invariant hdr == old(hdr) && pause == old(pause) && transtop == old(transtop)
        invariant JoinNames(dict0, lines, n) == Joined(bigtransdict, None)
      {
        var la := Cells(lines[n]);
        if |header| == 0 {
          header := la;
          continue;
        }
        var an := la[0];
        if an in bigtransdict {
          if |la| < 2 {
            JoinNamesStops(dict0, lines, n + 1, |lines|);
            return Some(IndexError);
          }
          bigtransdict := bigtransdict[OwnerCik := Str(la[1])];
          if |la| < 3 {
            JoinNamesStops(dict0, lines, n + 1, |lines|);
            return Some(IndexError);
          }
          bigtransdict := bigtransdict[OwnerName := Str(la[2])];
        }
      }
      return None;
    }

    /** `processform345`: the three steps in order, stopping at the first exception. */
    method ProcessForm345(trans: seq<string>, submissions: seq<string>, owners: seq<string>, fp: FloatOps)
      returns (failure: Option<Failure>)
      requires Valid()
      modifies this, DictRecords(), TopRecords()
      ensures Valid()
      ensures Collect(trans, fp).Err? ==> failure == Some(Collect(trans, fp).failure)
      ensures failure.None? ==> Collect(trans, fp).Ok? && |Collect(trans, fp).value| >= TopCount
    {
      failure := LargestTrades(trans, fp);
      if failure.Some? {
        return;
      }
      failure := Submissions(submissions);
      if failure.Some? {
        return;
      }
      failure := Names(owners);
    }
  }
}

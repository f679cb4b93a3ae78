/**
 * The score dashboard of scripts/agent-list.mjs: it reads agent-score.json and turns
 * every agent's version lists into one row per version (count, last, average, minimum
 * and maximum of the recorded totals), sorted by the last total, highest first, and
 * printed as a table with a bar per row.
 *
 * The file's text (or `None` when it does not exist), `JSON.parse` and the enumeration
 * order of `Object.entries` are parameters. JavaScript numbers are reals here.
 */
module AgentList {
  import opened Wrappers
  import opened Json
  import Strings
  import AgentScore
  import Seqs

  const BarWidth := 20
  const MaxTotalScore := 3000
  const RootMessage := "agent-score.json root must be an object."

  /** `StringToNumber` for the strings `Number(...)` meets: its finite value, or `None` for NaN and the infinities. */
  type NumberParser = string -> Option<real>

  /** One dashboard row. */
  datatype Row = Row(agent: string, version: string, count: nat, last: real, avg: real, min: real, max: real)

  // ---------------------------------------------------------------------------
  // Formatting
  // ---------------------------------------------------------------------------

  function Spaces(n: nat): (r: string)
    ensures |r| == n && forall i | 0 <= i < n :: r[i] == ' '
  {
    seq(n, _ => ' ')
  }

  /** `pad`: text shorter than `width` is filled with spaces up to exactly `width`; longer text is kept whole. */
  function Pad(text: string, width: nat): (r: string)
    ensures |text| >= width ==> r == text
    ensures |text| < width ==> |r| == width && r[..|text|] == text && forall i | |text| <= i < width :: r[i] == ' '
  {
    if |text| >= width then text else text + Spaces(width - |text|)
  }

  /** `clamp`: when `lo <= hi` the result lies in [lo, hi], and a number already there is kept. */
  function Clamp(num: real, lo: real, hi: real): (r: real)
    ensures lo <= hi ==> lo <= r <= hi
    ensures lo <= num <= hi ==> r == num
  {
    var inner := if hi < num then hi else num;
    if lo > inner then lo else inner
  }

  /** `Math.round`: the nearest integer, halves rounded up. */
  function Round(x: real): (n: int)
    ensures x - 0.5 < n as real <= x + 0.5
  {
    (x + 0.5).Floor
  }

  /** The number of '#' in the bar of `value`: the clamped share of the maximum total, in twentieths. */
  function Filled(value: real): (n: nat)
    ensures n <= BarWidth
    ensures value <= 0.0 ==> n == 0
    ensures value >= MaxTotalScore as real ==> n == BarWidth
  {
    var ratio := Clamp(value / MaxTotalScore as real, 0.0, 1.0);
    Round(ratio * BarWidth as real)
  }

  /** A higher total never draws a shorter bar. */
  lemma FilledMonotone(v: real, w: real)
    requires v <= w
    ensures Filled(v) <= Filled(w)
  {
    var rv := Clamp(v / MaxTotalScore as real, 0.0, 1.0);
    var rw := Clamp(w / MaxTotalScore as real, 0.0, 1.0);
    assert v / MaxTotalScore as real <= w / MaxTotalScore as real;
    assert rv <= rw;
    assert rv * BarWidth as real <= rw * BarWidth as real;
  }

  /** `scoreBar`: `BarWidth` cells between brackets, the first `Filled(value)` of them '#', the rest '-'. */
  function ScoreBar(value: real): (r: string)
    ensures |r| == BarWidth + 2 && r[0] == '[' && r[BarWidth + 1] == ']'
    ensures forall i | 1 <= i <= BarWidth :: (r[i] == '#' <==> i <= Filled(value))
    ensures forall i | 1 <= i <= BarWidth :: (r[i] == '-' <==> i > Filled(value))
  {
    var n := Filled(value);
    "[" + seq(n, _ => '#') + seq(BarWidth - n, _ => '-') + "]"
  }

  function Abs(x: real): real {
    if x < 0.0 then -x else x
  }

  /** The digits of a non-negative number of tenths, with the point before the last digit. */
  function TenthsText(n: nat): (u: string)
    ensures |u| >= 3 && u[|u| - 2] == '.'
    ensures forall i | 0 <= i < |u| && i != |u| - 2 :: Strings.IsDigit(u[i])
  {
    Strings.DecimalString(n / 10) + "." + [Strings.DigitChar(n % 10)]
  }

  /** What a text of the shape `TenthsText` produces reads as, in tenths. */
  function TenthsValue(u: string): nat
    requires |u| >= 3 && u[|u| - 2] == '.'
    requires forall i | 0 <= i < |u| && i != |u| - 2 :: Strings.IsDigit(u[i])
  {
    assert forall i | 0 <= i < |u[..|u| - 2]| :: u[..|u| - 2][i] == u[i];
    assert Strings.IsDigit(u[|u| - 1]);
    Strings.DecimalValue(u[..|u| - 2]) * 10 + (u[|u| - 1] as int - '0' as int)
  }

  lemma TenthsRoundTrip(n: nat)
    ensures TenthsValue(TenthsText(n)) == n
  {
    var u := TenthsText(n);
    assert u[..|u| - 2] == Strings.DecimalString(n / 10);
    Strings.DecimalRoundTrip(n / 10);
  }

  /**
   * `value.toFixed(1)` of a finite number: an optional minus sign, then the magnitude
   * rounded to tenths (halves up). The tenths it spells lie within half a tenth of
   * the magnitude.
   */
  function ToFixed1(x: real): (r: string)
    ensures (|r| > 0 && r[0] == '-') <==> x < 0.0
    ensures var u := if x < 0.0 then r[1..] else r;
      && |u| >= 3 && u[|u| - 2] == '.'
      && (forall i | 0 <= i < |u| && i != |u| - 2 :: Strings.IsDigit(u[i]))
      && Abs(x) - 0.05 < TenthsValue(u) as real / 10.0 <= Abs(x) + 0.05
  {
    var n := Round(Abs(x) * 10.0);
    TenthsRoundTrip(n);
    var u := TenthsText(n);
    if x < 0.0 then
      assert ("-" + u)[1..] == u;
      "-" + u
    else u
  }

  /** `formatScore` for the finite numbers the rows hold. */
  function FormatScore(value: real): string {
    ToFixed1(value)
  }

  // ---------------------------------------------------------------------------
  // Reading the file
  // ---------------------------------------------------------------------------

  /**
   * `readScoreData`: `None` when the file is missing, `{}` when it is blank, otherwise
   * the parsed root, which must be an object.
   */
  function ReadScoreData(existing: Option<string>, parse: AgentScore.Parser): (r: Result<Option<map<string, Json>>, string>)
    ensures existing.None? ==> r == Ok(None)
    ensures existing.Some? && Strings.AllWhitespace(existing.value) ==> r == Ok(Some(map[]))
    ensures existing.Some? && !Strings.AllWhitespace(existing.value) ==>
              (r.Ok? <==> parse(Strings.Trim(existing.value)).Ok? && parse(Strings.Trim(existing.value)).value.JObject?)
    ensures r.Ok? && existing.Some? ==> r.value.Some?
  {
    if existing.None? then Ok(None)
    else
      var raw := Strings.Trim(existing.value);
      Strings.TrimEmptyIffBlank(existing.value);
      if raw == "" then Ok(Some(map[]))
      else
        match parse(raw)
        case Err(e) => Err(e)
        case Ok(JObject(fields)) => Ok(Some(fields))
        case Ok(_) => Err(RootMessage)
  }

  /** The dashboard and the collector read an existing score file to the same root object, or both fail. */
  lemma ReadersAgree(raw: string, parse: AgentScore.Parser, path: string)
    ensures ReadScoreData(Some(raw), parse).Ok? <==> AgentScore.ReadRoot(Some(raw), parse, path).Ok?
    ensures ReadScoreData(Some(raw), parse).Ok? ==>
              ReadScoreData(Some(raw), parse).value == Some(AgentScore.ReadRoot(Some(raw), parse, path).value)
  {
  }

  // ---------------------------------------------------------------------------
  // Rows
  // ---------------------------------------------------------------------------

  /**
   * `Number(v)` for a value read from the file (`None` is `undefined`): `null` and `[]`
   * are 0, booleans 0 or 1, strings and one-element arrays go through their text, and
   * everything else is NaN (`None`).
   */
  function NumberOf(v: Option<Json>, toNumber: NumberParser): (r: Option<real>)
    ensures v.Some? && v.value.JNumber? ==> r == Some(v.value.n)
    ensures v.None? ==> r.None?
  {
    if v.None? then None else NumberOfValue(v.value, toNumber)
  }

  /** `Number(v)` for a value that is present. */
  function NumberOfValue(v: Json, toNumber: NumberParser): (r: Option<real>)
    ensures v.JNumber? ==> r == Some(v.n)
  {
    match v
    case JNull => Some(0.0)
    case JBool(b) => Some(if b then 1.0 else 0.0)
    case JNumber(n) => Some(n)
    case JString(s) => toNumber(s)
    case JArray(items) =>
      if |items| == 0 then Some(0.0)
      else if |items| > 1 then None
      else
        (match items[0]
         case JNull => Some(0.0)
         case JNumber(n) => Some(n)
         case JString(s) => toNumber(s)
         case JArray(_) => NumberOfValue(items[0], toNumber)
         case _ => None)
    case JObject(_) => None
  }

  /** The finite `total_score`s of a version's records, in record order. */
  function Totals(records: seq<Json>, toNumber: NumberParser): (r: seq<real>)
    ensures |r| <= |records|
    ensures forall x | x in r :: exists i | 0 <= i < |records| :: NumberOf(Get(records[i], "total_score"), toNumber) == Some(x)
  {
    if records == [] then []
    else
      var init := Totals(records[..|records| - 1], toNumber);
      var v := NumberOf(Get(records[|records| - 1], "total_score"), toNumber);
      if v.Some? then init + [v.value] else init
  }

  lemma TotalsAppend(records: seq<Json>, record: Json, toNumber: NumberParser)
    ensures Totals(records + [record], toNumber) ==
      Totals(records, toNumber) + (match NumberOf(Get(record, "total_score"), toNumber) case Some(x) => [x] case None => [])
  {
    assert (records + [record])[..|records|] == records;
  }

  function Sum(xs: seq<real>): real {
    if xs == [] then 0.0 else Sum(xs[..|xs| - 1]) + xs[|xs| - 1]
  }

  /** `Math.min(...xs)`: an element no larger than any other. */
  function Min(xs: seq<real>): (r: real)
    requires xs != []
    ensures r in xs && forall x | x in xs :: r <= x
  {
    if |xs| == 1 then xs[0]
    else
      var m := Min(xs[..|xs| - 1]);
      assert forall x | x in xs :: x in xs[..|xs| - 1] || x == xs[|xs| - 1];
      if xs[|xs| - 1] < m then xs[|xs| - 1] else m
  }

  /** `Math.max(...xs)`: an element no smaller than any other. */
  function Max(xs: seq<real>): (r: real)
    requires xs != []
    ensures r in xs && forall x | x in xs :: x <= r
  {
    if |xs| == 1 then xs[0]
    else
      var m := Max(xs[..|xs| - 1]);
      assert forall x | x in xs :: x in xs[..|xs| - 1] || x == xs[|xs| - 1];
      if xs[|xs| - 1] > m then xs[|xs| - 1] else m
  }

  /** A sum of numbers between `lo` and `hi` lies between `|xs| * lo` and `|xs| * hi`. */
  lemma {:induction false} SumBetween(xs: seq<real>, lo: real, hi: real)
    requires forall x | x in xs :: lo <= x <= hi
    ensures |xs| as real * lo <= Sum(xs) <= |xs| as real * hi
  {
    if xs != [] {
      var init := xs[..|xs| - 1];
      assert forall x | x in init :: x in xs;
      SumBetween(init, lo, hi);
      assert xs[|xs| - 1] in xs;
      assert |xs| as real * lo == |init| as real * lo + lo;
      assert |xs| as real * hi == |init| as real * hi + hi;
    }
  }

  /** The average of a non-empty list lies between its minimum and its maximum. */
  lemma AverageBetween(xs: seq<real>)
    requires xs != []
    ensures Min(xs) <= Sum(xs) / |xs| as real <= Max(xs)
  {
    AverageWithin(xs, Min(xs), Max(xs));
  }

  lemma AverageWithin(xs: seq<real>, lo: real, hi: real)
    requires xs != [] && forall x | x in xs :: lo <= x <= hi
    ensures lo <= Sum(xs) / |xs| as real <= hi
  {
    SumBetween(xs, lo, hi);
    Between(Sum(xs), |xs| as real, lo, hi);
  }

  lemma Between(sum: real, n: real, lo: real, hi: real)
    requires n > 0.0 && n * lo <= sum <= n * hi
    ensures lo <= sum / n <= hi
  {
    var avg := sum / n;
    assert sum == n * avg;
    Cancel(n, lo, avg);
    Cancel(n, avg, hi);
  }

  lemma Cancel(n: real, a: real, b: real)
    requires n > 0.0 && n * a <= n * b
    ensures a <= b
  {
  }

  /**
   * One version's row in `toVersionRows`: none when the records are not a non-empty
   * array or hold no finite total; otherwise the count, last, average, minimum and
   * maximum of the finite totals.
   */
  function VersionRow(agent: string, version: string, records: Json, toNumber: NumberParser): (r: Option<Row>)
    ensures r.None? <==> !records.JArray? || Totals(records.items, toNumber) == []
    ensures r.Some? ==> var totals := Totals(records.items, toNumber);
      && r.value.agent == agent && r.value.version == version
      && r.value.count == |totals| > 0
      && r.value.last == totals[|totals| - 1]
      && r.value.min <= r.value.avg <= r.value.max
      && r.value.min <= r.value.last <= r.value.max
      && r.value.min in totals && r.value.max in totals
      && (forall x | x in totals :: r.value.min <= x <= r.value.max)
      && r.value.avg == Sum(totals) / r.value.count as real
  {
    if !records.JArray? || |records.items| == 0 then None
    else
      var totals := Totals(records.items, toNumber);
      if totals == [] then None
      else
        AverageBetween(totals);
        assert totals[|totals| - 1] in totals;
        Some(Row(agent, version, |totals|, totals[|totals| - 1], Sum(totals) / |totals| as real, Min(totals), Max(totals)))
  }

  /** The rows of the versions listed in `order`, unsorted. */
  function VersionRows(agent: string, versions: map<string, Json>, order: seq<string>, toNumber: NumberParser): (r: seq<Row>)
    requires forall v | v in order :: v in versions
    ensures |r| <= |order|
    ensures forall row | row in r :: row.agent == agent && row.version in order
  {
    if order == [] then []
    else
      var init := VersionRows(agent, versions, order[..|order| - 1], toNumber);
      var v := order[|order| - 1];
      match VersionRow(agent, v, versions[v], toNumber)
      case Some(row) => init + [row]
      case None => init
  }

  /**
   * What `Object.entries` enumerates: every key of the object exactly once, in some
   * order.
   */
  predicate EnumerationOf<V>(m: map<string, V>, order: seq<string>) {
    && (forall k | k in m :: k in order)
    && (forall k | k in order :: k in m)
    && (forall i, j | 0 <= i < j < |order| :: order[i] != order[j])
  }

  /** Every version listed whose records hold a finite total has its row among the rows. */
  lemma {:induction false} VersionRowsComplete(agent: string, versions: map<string, Json>, order: seq<string>,
                                               toNumber: NumberParser, v: string)
    requires forall w | w in order :: w in versions
    requires v in order && VersionRow(agent, v, versions[v], toNumber).Some?
    ensures VersionRow(agent, v, versions[v], toNumber).value in VersionRows(agent, versions, order, toNumber)
  {
    var last := order[|order| - 1];
    if v != last {
      assert v in order[..|order| - 1] by {
        var i :| 0 <= i < |order| && order[i] == v;
        assert order[..|order| - 1][i] == v;
      }
      VersionRowsComplete(agent, versions, order[..|order| - 1], toNumber, v);
    }
  }

  // ---------------------------------------------------------------------------
  // Sorting by last total, highest first
  // ---------------------------------------------------------------------------

  predicate SortedByLast(rows: seq<Row>) {
    forall i, j | 0 <= i < j < |rows| :: rows[i].last >= rows[j].last
  }

  /** The rows whose last total is `k`, in their order. */
  function WithLast(rows: seq<Row>, k: real): (r: seq<Row>)
    ensures forall row | row in r :: row in rows && row.last == k
  {
    if rows == [] then []
    else (if rows[0].last == k then [rows[0]] else []) + WithLast(rows[1..], k)
  }

  lemma {:induction false} WithLastConcat(a: seq<Row>, b: seq<Row>, k: real)
    ensures WithLast(a + b, k) == WithLast(a, k) + WithLast(b, k)
  {
    if a != [] {
      assert (a + b)[1..] == a[1..] + b;
      WithLastConcat(a[1..], b, k);
    } else {
      assert a + b == b;
    }
  }

  /** Places `row` after every row whose last total is at least its own. */
  function Insert(sorted: seq<Row>, row: Row): (r: seq<Row>)
    ensures multiset(r) == multiset(sorted) + multiset{row}
  {
    if sorted == [] then [row]
    else if sorted[0].last >= row.last then
      assert sorted == [sorted[0]] + sorted[1..];
      [sorted[0]] + Insert(sorted[1..], row)
    else
      [row] + sorted
  }

  /** Inserting into a list sorted highest first keeps it sorted. */
  lemma {:induction false} InsertSorted(sorted: seq<Row>, row: Row)
    requires SortedByLast(sorted)
    ensures SortedByLast(Insert(sorted, row))
  {
    if sorted != [] && sorted[0].last >= row.last {
      var rest := Insert(sorted[1..], row);
      InsertSorted(sorted[1..], row);
      InsertBounded(sorted[1..], row, sorted[0].last);
      assert Insert(sorted, row) == [sorted[0]] + rest;
    }
  }

  /** Inserting a row whose total is at most `b` among such rows keeps every total at most `b`. */
  lemma {:induction false} InsertBounded(rows: seq<Row>, row: Row, b: real)
    requires row.last <= b && forall i | 0 <= i < |rows| :: rows[i].last <= b
    ensures forall j | 0 <= j < |Insert(rows, row)| :: Insert(rows, row)[j].last <= b
  {
    if rows != [] && rows[0].last >= row.last {
      InsertBounded(rows[1..], row, b);
    }
  }

  /** Inserting keeps the order among equal totals: `row` comes after the ones already there. */
  lemma {:induction false} InsertKeepsTies(sorted: seq<Row>, row: Row, k: real)
    requires SortedByLast(sorted)
    ensures WithLast(Insert(sorted, row), k) == WithLast(sorted, k) + (if row.last == k then [row] else [])
  {
    if sorted == [] {
    } else if sorted[0].last >= row.last {
      InsertKeepsTies(sorted[1..], row, k);
      var head := if sorted[0].last == k then [sorted[0]] else [];
      var inserted := Insert(sorted[1..], row);
      assert Insert(sorted, row) == [sorted[0]] + inserted;
      assert ([sorted[0]] + inserted)[1..] == inserted;
      assert WithLast(Insert(sorted, row), k) == head + WithLast(inserted, k);
      Seqs.AppendAssoc(head, WithLast(sorted[1..], k), if row.last == k then [row] else []);
    } else if row.last == k {
      assert WithLast(sorted, k) == [] by {
        NoneAbove(sorted, k);
      }
    }
  }

  /** In a list sorted highest first whose first total is below `k`, no total equals `k`. */
  lemma NoneAbove(sorted: seq<Row>, k: real)
    requires SortedByLast(sorted) && sorted != [] && sorted[0].last < k
    ensures WithLast(sorted, k) == []
  {
    assert forall i | 0 <= i < |sorted| :: sorted[i].last != k by {
      forall i | 0 < i < |sorted|
        ensures sorted[i].last <= sorted[0].last
      {
      }
    }
    NoneEqual(sorted, k);
  }

  lemma {:induction false} NoneEqual(rows: seq<Row>, k: real)
    requires forall i | 0 <= i < |rows| :: rows[i].last != k
    ensures WithLast(rows, k) == []
  {
    if rows != [] {
      NoneEqual(rows[1..], k);
    }
  }

  /** `rows.sort((a, b) => b.last - a.last)`: a stable sort, highest last total first. */
  function SortByLast(rows: seq<Row>): (r: seq<Row>)
    ensures SortedByLast(r)
    ensures multiset(r) == multiset(rows)
  {
    if rows == [] then []
    else
      var init := rows[..|rows| - 1];
      assert rows == init + [rows[|rows| - 1]];
      InsertSorted(SortByLast(init), rows[|rows| - 1]);
      Insert(SortByLast(init), rows[|rows| - 1])
  }

  /** The sort is stable: rows with the same last total keep their relative order. */
  lemma {:induction false} SortByLastStable(rows: seq<Row>, k: real)
    ensures WithLast(SortByLast(rows), k) == WithLast(rows, k)
  {
    if rows != [] {
      var init, row := rows[..|rows| - 1], rows[|rows| - 1];
      Seqs.Snoc(rows);
      assert SortByLast(rows) == Insert(SortByLast(init), row);
      SortByLastStable(init, k);
      InsertKeepsTies(SortByLast(init), row, k);
      WithLastConcat(init, [row], k);
      assert WithLast([row], k) == (if row.last == k then [row] else []) + WithLast([], k);
    }
  }

  /**
   * `toVersionRows`: one row per version in `Object.entries` order that has finite
   * totals, then sorted highest last total first.
   */
  method ToVersionRows(agent: string, versions: map<string, Json>, order: seq<string>, toNumber: NumberParser)
    returns (rows: seq<Row>)
    requires EnumerationOf(versions, order)
    ensures rows == SortByLast(VersionRows(agent, versions, order, toNumber))
  {
    rows := [];
    var i := 0;
    while i < |order|
      invariant 0 <= i <= |order|
      invariant rows == VersionRows(agent, versions, order[..i], toNumber)
    {
      var v := order[i];
      assert order[..i + 1][..i] == order[..i];
      var row := VersionRow(agent, v, versions[v], toNumber);
      if row.Some? {
        rows := rows + [row.value];
      }
      i := i + 1;
    }
    assert order[..|order|] == order;
    rows := SortByLast(rows);
  }

  // ---------------------------------------------------------------------------
  // The dashboard
  // ---------------------------------------------------------------------------

  /** `!versions || typeof versions !== 'object' || Array.isArray(versions)` fails: the entry is an object. */
  predicate IsVersionMap(v: Json) {
    v.JObject?
  }

  /** What the loop of `main` gathers: each object entry's sorted rows, in enumeration order. */
  function AgentRows(data: map<string, Json>, agents: seq<string>, entries: map<string, seq<string>>, toNumber: NumberParser)
    : (r: seq<Row>)
    requires forall a | a in agents :: a in data
    requires forall a | a in agents && IsVersionMap(data[a]) ::
               a in entries && forall v | v in entries[a] :: v in data[a].fields
  {
    if agents == [] then []
    else
      var init := AgentRows(data, agents[..|agents| - 1], entries, toNumber);
      var a := agents[|agents| - 1];
      if IsVersionMap(data[a]) then init + SortByLast(VersionRows(a, data[a].fields, entries[a], toNumber))
      else init
  }

  /** The same rows before any sorting. */
  function UnsortedRows(data: map<string, Json>, agents: seq<string>, entries: map<string, seq<string>>, toNumber: NumberParser)
    : seq<Row>
    requires forall a | a in agents :: a in data
    requires forall a | a in agents && IsVersionMap(data[a]) ::
               a in entries && forall v | v in entries[a] :: v in data[a].fields
  {
    if agents == [] then []
    else
      var init := UnsortedRows(data, agents[..|agents| - 1], entries, toNumber);
      var a := agents[|agents| - 1];
      if IsVersionMap(data[a]) then init + VersionRows(a, data[a].fields, entries[a], toNumber)
      else init
  }

  /** Sorting each agent's rows first changes neither the rows nor the order of ties. */
  lemma {:induction false} AgentRowsTies(data: map<string, Json>, agents: seq<string>, entries: map<string, seq<string>>,
                                         toNumber: NumberParser, k: real)
    requires forall a | a in agents :: a in data
    requires forall a | a in agents && IsVersionMap(data[a]) ::
               a in entries && forall v | v in entries[a] :: v in data[a].fields
    ensures WithLast(AgentRows(data, agents, entries, toNumber), k) == WithLast(UnsortedRows(data, agents, entries, toNumber), k)
    ensures multiset(AgentRows(data, agents, entries, toNumber)) == multiset(UnsortedRows(data, agents, entries, toNumber))
  {
    if agents != [] {
      var init := agents[..|agents| - 1];
      var a := agents[|agents| - 1];
      AgentRowsTies(data, init, entries, toNumber, k);
      if IsVersionMap(data[a]) {
        var own := VersionRows(a, data[a].fields, entries[a], toNumber);
        WithLastConcat(AgentRows(data, init, entries, toNumber), SortByLast(own), k);
        WithLastConcat(UnsortedRows(data, init, entries, toNumber), own, k);
        SortByLastStable(own, k);
      }
    }
  }

  /**
   * Every version of every object entry listed whose records hold a finite total has
   * its row among the gathered rows.
   */
  lemma {:induction false} AgentRowsComplete(data: map<string, Json>, agents: seq<string>,
                                             entries: map<string, seq<string>>, toNumber: NumberParser, a: string, v: string)
    requires forall x | x in agents :: x in data
    requires forall x | x in agents && IsVersionMap(data[x]) ::
               x in entries && forall w | w in entries[x] :: w in data[x].fields
    requires a in agents && IsVersionMap(data[a]) && v in entries[a]
    requires VersionRow(a, v, data[a].fields[v], toNumber).Some?
    ensures VersionRow(a, v, data[a].fields[v], toNumber).value in AgentRows(data, agents, entries, toNumber)
  {
    var init, last := agents[..|agents| - 1], agents[|agents| - 1];
    var row := VersionRow(a, v, data[a].fields[v], toNumber).value;
    if a == last {
      var own := VersionRows(a, data[a].fields, entries[a], toNumber);
      VersionRowsComplete(a, data[a].fields, entries[a], toNumber, v);
      assert row in multiset(SortByLast(own));
    } else {
      assert a in init by {
        var i :| 0 <= i < |agents| && agents[i] == a;
        assert init[i] == a;
      }
      AgentRowsComplete(data, init, entries, toNumber, a, v);
    }
  }

  /** The orders given cover the agents and their versions, as `AgentRows` needs. */
  predicate Listed(data: map<string, Json>, agents: seq<string>, entries: map<string, seq<string>>) {
    && (forall a | a in agents :: a in data)
    && (forall a | a in agents && IsVersionMap(data[a]) :: a in entries && forall v | v in entries[a] :: v in data[a].fields)
  }

  /**
   * A table shows the row of every version of every object entry in the file whose
   * records hold a finite total.
   */
  lemma DashboardComplete(data: map<string, Json>, agents: seq<string>, entries: map<string, seq<string>>,
                          toNumber: NumberParser, a: string, v: string)
    requires EnumerationOf(data, agents)
    requires forall x | x in data && IsVersionMap(data[x]) :: x in entries && EnumerationOf(data[x].fields, entries[x])
    requires a in data && IsVersionMap(data[a]) && v in data[a].fields
    requires VersionRow(a, v, data[a].fields[v], toNumber).Some?
    ensures Listed(data, agents, entries)
            && VersionRow(a, v, data[a].fields[v], toNumber).value in SortByLast(AgentRows(data, agents, entries, toNumber))
  {
    forall x | x in agents && IsVersionMap(data[x])
      ensures x in entries && forall w | w in entries[x] :: w in data[x].fields
    {
      assert EnumerationOf(data[x].fields, entries[x]);
    }
    AgentRowsComplete(data, agents, entries, toNumber, a, v);
    var rows := AgentRows(data, agents, entries, toNumber);
    assert VersionRow(a, v, data[a].fields[v], toNumber).value in multiset(SortByLast(rows));
  }

  datatype Dashboard =
    | NotFound
    | NoRecords
    | Table(rows: seq<Row>)
    | Failed(message: string)

  /**
   * `main`: a missing file and a file without rows are reported; otherwise every
   * object entry contributes its rows, and all rows are sorted again, highest last
   * total first. `agents` is the enumeration order of the root and `entries[a]` that
   * of agent `a`'s versions.
   */
  method BuildDashboard(existing: Option<string>, parse: AgentScore.Parser, agents: seq<string>,
                        entries: map<string, seq<string>>, toNumber: NumberParser)
    returns (d: Dashboard)
    requires ReadScoreData(existing, parse).Ok? && ReadScoreData(existing, parse).value.Some? ==>
               var data := ReadScoreData(existing, parse).value.value;
               && EnumerationOf(data, agents)
               && (forall a | a in data && IsVersionMap(data[a]) :: a in entries && EnumerationOf(data[a].fields, entries[a]))
    ensures ReadScoreData(existing, parse).Err? ==> d == Failed(ReadScoreData(existing, parse).error)
    ensures existing.None? <==> d == NotFound
    ensures ReadScoreData(existing, parse).Ok? && ReadScoreData(existing, parse).value.Some? ==>
              var rows := AgentRows(ReadScoreData(existing, parse).value.value, agents, entries, toNumber);
              d == if rows == [] then NoRecords else Table(SortByLast(rows))
  {
    var read := ReadScoreData(existing, parse);
    if read.Err? {
      return Failed(read.error);
    }
    if read.value.None? {
      return NotFound;
    }
    var data := read.value.value;
    var rows: seq<Row> := [];
    var i := 0;
    while i < |agents|
      invariant 0 <= i <= |agents|
      invariant rows == AgentRows(data, agents[..i], entries, toNumber)
    {
      var a := agents[i];
      assert agents[..i + 1][..i] == agents[..i];
      if IsVersionMap(data[a]) {
        var own := ToVersionRows(a, data[a].fields, entries[a], toNumber);
        rows := rows + own;
      }
      i := i + 1;
    }
    assert agents[..|agents|] == agents;
    if rows == [] {
      return NoRecords;
    }
    return Table(SortByLast(rows));
  }

  /**
   * The dashboard's rows are every version row of the file, highest last total first,
   * with ties in the file's enumeration order: the per-agent sort inside
   * `toVersionRows` does not change the outcome.
   */
  lemma DashboardOrder(data: map<string, Json>, agents: seq<string>, entries: map<string, seq<string>>,
                       toNumber: NumberParser, k: real)
    requires forall a | a in agents :: a in data
    requires forall a | a in agents && IsVersionMap(data[a]) ::
               a in entries && forall v | v in entries[a] :: v in data[a].fields
    ensures var shown := SortByLast(AgentRows(data, agents, entries, toNumber));
      && SortedByLast(shown)
      && multiset(shown) == multiset(UnsortedRows(data, agents, entries, toNumber))
      && WithLast(shown, k) == WithLast(UnsortedRows(data, agents, entries, toNumber), k)
  {
    AgentRowsTies(data, agents, entries, toNumber, k);
    SortByLastStable(AgentRows(data, agents, entries, toNumber), k);
  }

  // ---------------------------------------------------------------------------
  // The table
  // ---------------------------------------------------------------------------

  /** The header line of `printTable`: the column titles, then "Trend". */
  function HeaderLine(): string {
    HeaderCells() + "Trend"
  }

  function HeaderCells(): string {
    Pad("Agent", 12) + " " + Pad("Version", 10) + " " + Pad("Count", 5) + " "
    + Pad("Last", 7) + " " + Pad("Avg", 7) + " " + Pad("Min", 7) + " " + Pad("Max", 7) + " "
  }

  /** One row line of `printTable`: the row's cells, then its bar. */
  function RowLine(row: Row): string {
    RowCells(row) + ScoreBar(row.last)
  }

  function RowCells(row: Row): string {
    Pad(row.agent, 12) + " " + Pad(row.version, 10) + " " + Pad(Strings.DecimalString(row.count), 5) + " "
    + Pad(FormatScore(row.last), 7) + " " + Pad(FormatScore(row.avg), 7) + " "
    + Pad(FormatScore(row.min), 7) + " " + Pad(FormatScore(row.max), 7) + " "
  }

  /** The lines printed for a table: title, blank line, header, rule, one line per row. */
  function TableLines(rows: seq<Row>): (r: seq<string>)
    ensures |r| == |rows| + 4
    ensures forall i | 0 <= i < |rows| :: r[i + 4] == RowLine(rows[i])
  {
    ["Agent Score Dashboard (" + Strings.DecimalString(|rows|) + " version rows)", "",
     HeaderLine(), seq(|HeaderLine()|, _ => '-')]
    + seq(|rows|, i requires 0 <= i < |rows| => RowLine(rows[i]))
  }

  /**
   * When every field fits its column, a row line is as wide as the header up to its
   * "Trend" column, and the bar starts exactly where "Trend" does.
   */
  lemma RowAligned(row: Row)
    requires |row.agent| <= 12 && |row.version| <= 10 && |Strings.DecimalString(row.count)| <= 5
    requires |FormatScore(row.last)| <= 7 && |FormatScore(row.avg)| <= 7
    requires |FormatScore(row.min)| <= 7 && |FormatScore(row.max)| <= 7
    ensures |HeaderLine()| == 67 && HeaderLine()[62..] == "Trend"
    ensures |RowLine(row)| == 62 + BarWidth + 2 && RowLine(row)[62..] == ScoreBar(row.last)
  {
    CellsWidth(row.agent, row.version, Strings.DecimalString(row.count),
               FormatScore(row.last), FormatScore(row.avg), FormatScore(row.min), FormatScore(row.max));
    CellsWidth("Agent", "Version", "Count", "Last", "Avg", "Min", "Max");
  }

  lemma CellsWidth(a: string, v: string, c: string, l: string, g: string, n: string, x: string)
    requires |a| <= 12 && |v| <= 10 && |c| <= 5 && |l| <= 7 && |g| <= 7 && |n| <= 7 && |x| <= 7
    ensures |Pad(a, 12) + " " + Pad(v, 10) + " " + Pad(c, 5) + " " + Pad(l, 7) + " " + Pad(g, 7) + " "
             + Pad(n, 7) + " " + Pad(x, 7) + " "| == 62
  {
    PadWidth(a, 12);
    PadWidth(v, 10);
    PadWidth(c, 5);
    PadWidth(l, 7);
    PadWidth(g, 7);
    PadWidth(n, 7);
    PadWidth(x, 7);
  }

  lemma PadWidth(text: string, width: nat)
    requires |text| <= width
    ensures |Pad(text, width)| == width
  {
  }

  // ---------------------------------------------------------------------------
  // Collector and dashboard together
  // ---------------------------------------------------------------------------

  /**
   * After the collector appends a record under an object entry, the dashboard row of
   * that agent and version shows the record's total as its last total. Under an
   * array entry the append also succeeds, but the dashboard skips the agent.
   */
  lemma CollectedTotalIsLast(root: map<string, Json>, b: AgentScore.AgentBranch, branch: string, commitId: string,
                             collectedAt: string, s: AgentScore.Scores, toNumber: NumberParser)
    requires AgentScore.AppendScoreRecord(root, b.agent, b.version,
               AgentScore.ScoreRecord(b, branch, commitId, collectedAt, s)).Ok?
    ensures var after := AgentScore.AppendScoreRecord(root, b.agent, b.version,
               AgentScore.ScoreRecord(b, branch, commitId, collectedAt, s)).value;
      && b.agent in after
      && (IsVersionMap(after[b.agent]) <==> AgentScore.AgentSlot(root, b.agent).JObject?)
      && (IsVersionMap(after[b.agent]) ==>
            b.version in after[b.agent].fields
            && var row := VersionRow(b.agent, b.version, after[b.agent].fields[b.version], toNumber);
               row.Some? && row.value.last == s.Total() as real)
  {
    var record := AgentScore.ScoreRecord(b, branch, commitId, collectedAt, s);
    var after := AgentScore.AppendScoreRecord(root, b.agent, b.version, record).value;
    var slot := AgentScore.AgentSlot(root, b.agent);
    if slot.JObject? {
      var before := AgentScore.VersionSlot(slot.fields, b.version).items;
      assert after[b.agent].fields[b.version] == JArray(before + [record]);
      RowAfterAppend(b.agent, b.version, before, record, s.Total() as real, toNumber);
    }
  }

  /** A version list that ends with a record of total `total` gives a row whose last total is `total`. */
  lemma RowAfterAppend(agent: string, version: string, before: seq<Json>, record: Json, total: real, toNumber: NumberParser)
    requires Get(record, "total_score") == Some(JNumber(total))
    ensures var row := VersionRow(agent, version, JArray(before + [record]), toNumber);
      row.Some? && row.value.last == total
  {
    TotalsAppend(before, record, toNumber);
    assert NumberOf(Get(record, "total_score"), toNumber) == Some(total);
  }
}

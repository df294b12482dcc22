/** The text cleaning and the biometric table of the PDF report. */
module Report {
  import opened Wrappers
  import opened Text
  import opened Cells
  import Calculations
  import Storage

  // ---------------------------------------------------------------------
  // sanitize

  /** A character the report font's Latin-1 encoding can hold. */
  predicate IsLatin1(c: char)
  {
    c as int < 256
  }

  /** `text.encode('latin-1', 'replace').decode('latin-1')`: every character
      outside Latin-1 becomes one question mark. */
  function Latin1Replace(s: string): (r: string)
    ensures |r| == |s|
    ensures forall i | 0 <= i < |s| :: r[i] == if IsLatin1(s[i]) then s[i] else '?'
  {
    seq(|s|, i requires 0 <= i < |s| => if IsLatin1(s[i]) then s[i] else '?')
  }

  /** `sanitize` on a string: replace what Latin-1 cannot hold, then drop
      every question mark, the replaced ones and the original ones alike. */
  function Sanitize(text: string): (r: string)
    ensures forall c | c in r :: IsLatin1(c) && c != '?'
  {
    var l := Latin1Replace(text);
    assert forall c | c in l :: IsLatin1(c);
    RemoveChar(l, '?')
  }

  /** A character the sanitised text keeps. */
  predicate Printable(c: char)
  {
    IsLatin1(c) && c != '?'
  }

  /** Reference definition: the printable characters of `s`, in order. */
  function KeepPrintable(s: string): string
  {
    if s == [] then []
    else (if Printable(s[0]) then [s[0]] else []) + KeepPrintable(s[1..])
  }

  /** Sanitising keeps exactly the printable characters, in order. */
  lemma {:induction false} SanitizeIsFilter(s: string)
    ensures Sanitize(s) == KeepPrintable(s)
    decreases |s|
  {
    if s != [] {
      var l := Latin1Replace(s);
      assert l[1..] == Latin1Replace(s[1..]);
      assert l[0] == '?' <==> !Printable(s[0]);
      SanitizeIsFilter(s[1..]);
    }
  }

  lemma {:induction false} KeepPrintableAppend(a: string, b: string)
    ensures KeepPrintable(a + b) == KeepPrintable(a) + KeepPrintable(b)
    decreases |a|
  {
    if a != [] {
      assert (a + b)[0] == a[0] && (a + b)[1..] == a[1..] + b;
      KeepPrintableAppend(a[1..], b);
      var h := if Printable(a[0]) then [a[0]] else [];
      assert KeepPrintable(a) == h + KeepPrintable(a[1..]);
      assert KeepPrintable(a + b) == h + (KeepPrintable(a[1..]) + KeepPrintable(b));
    } else {
      assert a + b == b;
    }
  }

  /** Sanitising a concatenation sanitises each part. */
  lemma SanitizeAppend(a: string, b: string)
    ensures Sanitize(a + b) == Sanitize(a) + Sanitize(b)
  {
    SanitizeIsFilter(a + b);
    SanitizeIsFilter(a);
    SanitizeIsFilter(b);
    KeepPrintableAppend(a, b);
  }

  lemma {:induction false} KeepPrintableClean(s: string)
    requires forall i | 0 <= i < |s| :: Printable(s[i])
    ensures KeepPrintable(s) == s
    decreases |s|
  {
    if s != [] {
      KeepPrintableClean(s[1..]);
    }
  }

  /** The text is left unchanged exactly when it is all Latin-1 and has no
      question mark. */
  lemma SanitizeUnchanged(s: string)
    ensures Sanitize(s) == s <==> forall i | 0 <= i < |s| :: Printable(s[i])
  {
    if forall i | 0 <= i < |s| :: Printable(s[i]) {
      SanitizeIsFilter(s);
      KeepPrintableClean(s);
    } else {
      var i :| 0 <= i < |s| && !Printable(s[i]);
      assert s[i] in s;
    }
  }

  lemma SanitizeIdempotent(s: string)
    ensures Sanitize(Sanitize(s)) == Sanitize(s)
  {
    var r := Sanitize(s);
    assert forall i | 0 <= i < |r| :: Printable(r[i]) by {
      assert forall i | 0 <= i < |r| :: r[i] in r;
    }
    SanitizeUnchanged(r);
  }

  /** `sanitize` on any value: text is cleaned, anything else is only
      converted with `str`. */
  function SanitizeValue(v: Value, show: real -> string): (r: string)
    ensures v.Text? ==> r == KeepPrintable(v.text)
    ensures v.Num? ==> r == show(v.number)
  {
    match v
    case Text(t) => SanitizeIsFilter(t); Sanitize(t)
    case Num(x) => show(x)
  }

  // ---------------------------------------------------------------------
  // kpi_grid

  /** The text colour of a change: dark green for an increase, dark red
      otherwise. */
  datatype Colour = Green | Red

  /** The comparison part of a table row: the dash cell, or the previous
      value with the signed change. */
  datatype Comparison =
    | Dash
    | Compared(previous: real, delta: real, sign: string, colour: Colour)

  /** One row of the table: title, current value, unit and comparison. */
  datatype KpiRow = KpiRow(title: string, current: Value, unit: string, comparison: Comparison)

  /** The header's last columns: the previous visit's date, or one blank cell. */
  datatype Header = WithoutPrevious | WithPrevious(date: Value)

  datatype KpiTable = KpiTable(header: Header, rows: seq<KpiRow>)

  /** A row of the table as the report lists it: title, key in the current
      record, unit, and key in the previous record when the row compares. */
  datatype KpiSpec = KpiSpec(title: string, key: string, unit: string, previousKey: Option<string>)

  const KpiSpecs: seq<KpiSpec> := [
    KpiSpec("Angolo di Fase (PhA)", "PhA", "deg", Some("PhA")),
    KpiSpec("Body Fat (BF%)", "FM_perc", "%", Some("FM_perc")),
    KpiSpec("Massa Magra (FFM)", "FFM_kg", "kg", None),
    KpiSpec("Muscolo (SMM)", "SMM_kg", "kg", None),
    KpiSpec("Cellule (BCM)", "BCM_kg", "kg", None),
    KpiSpec("Acqua Totale (TBW)", "TBW_L", "L", Some("TBW_L")),
    KpiSpec("Acqua Extra (ECW)", "ECW_L", "L", None)
  ]

  /** The key the previous visit's date is read from, and its fallback. */
  const DateKey: string := "Date"
  const NoDate: Value := Text("N/D")

  /** The comparison of `add_row`: shown when there is a previous record
      holding the row's key and both values convert with `float`. */
  function Compare(current: Value, prev: map<string, Value>, previousKey: Option<string>,
                   parse: string -> Option<real>): (c: Comparison)
    ensures c.Compared? <==>
      (|prev| > 0 && previousKey.Some? && previousKey.value != [] && previousKey.value in prev &&
       ToFloat(prev[previousKey.value], parse).Some? && ToFloat(current, parse).Some?)
    ensures c.Compared? ==>
      ToFloat(prev[previousKey.value], parse) == Some(c.previous) &&
      ToFloat(current, parse) == Some(c.previous + c.delta)
    ensures c.Compared? ==> (c.sign == "+" <==> c.delta > 0.0) && (c.sign == [] <==> c.delta <= 0.0)
    ensures c.Compared? ==> (c.colour == Green <==> c.delta > 0.0)
  {
    if |prev| > 0 && previousKey.Some? && previousKey.value != [] && previousKey.value in prev then
      match (ToFloat(prev[previousKey.value], parse), ToFloat(current, parse))
      case (Some(p), Some(x)) =>
        var delta := x - p;
        Compared(p, delta, if delta > 0.0 then "+" else "", if delta > 0.0 then Green else Red)
      case _ => Dash
    else Dash
  }

  /** Swapping the two visits negates the change: at most one direction is
      shown as an increase, and no change is shown in red both ways. */
  lemma CompareSwapped(a: Value, b: Value, key: string, parse: string -> Option<real>)
    requires key != []
    ensures
      var x := Compare(a, map[key := b], Some(key), parse);
      var y := Compare(b, map[key := a], Some(key), parse);
      (x.Compared? <==> y.Compared?) &&
      (x.Compared? ==> x.delta == -y.delta && x.previous == y.previous + y.delta &&
                       (x.colour == Green ==> y.colour == Red) &&
                       (x.delta == 0.0 ==> x.colour == Red && y.colour == Red))
  {
    assert |map[key := b]| == 1 && |map[key := a]| == 1;
  }

  /** The header of the table. */
  function TableHeader(prev: map<string, Value>): (h: Header)
    ensures h.WithPrevious? <==> |prev| > 0
    ensures h.WithPrevious? ==> h.date == (if DateKey in prev then prev[DateKey] else NoDate)
  {
    if |prev| > 0 then WithPrevious(if DateKey in prev then prev[DateKey] else NoDate) else WithoutPrevious
  }

  /** The row a spec produces from a record holding its key. */
  function TableRow(spec: KpiSpec, data: map<string, Value>, prev: map<string, Value>,
                    parse: string -> Option<real>): (r: KpiRow)
    requires spec.key in data
    ensures r.title == spec.title && r.unit == spec.unit && r.current == data[spec.key]
    ensures spec.previousKey.None? ==> r.comparison == Dash
  {
    KpiRow(spec.title, data[spec.key], spec.unit, Compare(data[spec.key], prev, spec.previousKey, parse))
  }

  /** `kpi_grid`: `None` when the record lacks a key of the table, where
      `data[key]` raises `KeyError` and the report is not produced. */
  function KpiGrid(data: map<string, Value>, prev: map<string, Value>,
                   parse: string -> Option<real>): (r: Option<KpiTable>)
    ensures r.None? <==> exists i | 0 <= i < |KpiSpecs| :: KpiSpecs[i].key !in data
    ensures r.Some? ==> r.value.header == TableHeader(prev) && |r.value.rows| == |KpiSpecs|
    ensures r.Some? ==> forall i | 0 <= i < |KpiSpecs| ::
      r.value.rows[i].title == KpiSpecs[i].title &&
      r.value.rows[i].current == data[KpiSpecs[i].key] &&
      r.value.rows[i].unit == KpiSpecs[i].unit
  {
    if forall i | 0 <= i < |KpiSpecs| :: KpiSpecs[i].key in data then
      Some(KpiTable(TableHeader(prev),
        seq(|KpiSpecs|, i requires 0 <= i < |KpiSpecs| => TableRow(KpiSpecs[i], data, prev, parse))))
    else None
  }

  /** The keys the table reads from the current record. */
  predicate HasKpiKeys(data: map<string, Value>)
  {
    "PhA" in data && "FM_perc" in data && "FFM_kg" in data && "SMM_kg" in data &&
    "BCM_kg" in data && "TBW_L" in data && "ECW_L" in data
  }

  /** The table is built exactly when the record holds its seven keys. */
  lemma KpiGridDefined(data: map<string, Value>, prev: map<string, Value>, parse: string -> Option<real>)
    ensures KpiGrid(data, prev, parse).Some? <==> HasKpiKeys(data)
  {
    if !HasKpiKeys(data) {
      assert KpiSpecs[0].key == "PhA" && KpiSpecs[1].key == "FM_perc" && KpiSpecs[2].key == "FFM_kg" &&
        KpiSpecs[3].key == "SMM_kg" && KpiSpecs[4].key == "BCM_kg" && KpiSpecs[5].key == "TBW_L" &&
        KpiSpecs[6].key == "ECW_L";
    }
  }

  /** Each row shows the record's value under its key. */
  lemma KpiGridCurrent(data: map<string, Value>, prev: map<string, Value>, parse: string -> Option<real>)
    requires KpiGrid(data, prev, parse).Some?
    ensures HasKpiKeys(data)
    ensures var rows := KpiGrid(data, prev, parse).value.rows;
      rows[0].current == data["PhA"] && rows[1].current == data["FM_perc"] &&
      rows[2].current == data["FFM_kg"] && rows[3].current == data["SMM_kg"] &&
      rows[4].current == data["BCM_kg"] && rows[5].current == data["TBW_L"] &&
      rows[6].current == data["ECW_L"]
  {
    KpiGridDefined(data, prev, parse);
  }

  /** Each row's comparison is the one its spec asks for; only the phase
      angle, body-fat and total-water rows can ever compare. */
  lemma KpiGridComparisons(data: map<string, Value>, prev: map<string, Value>,
                           parse: string -> Option<real>)
    requires KpiGrid(data, prev, parse).Some?
    ensures forall i | 0 <= i < |KpiSpecs| ::
      KpiGrid(data, prev, parse).value.rows[i].comparison ==
        Compare(data[KpiSpecs[i].key], prev, KpiSpecs[i].previousKey, parse)
    ensures forall i | 0 <= i < |KpiSpecs| && i !in {0, 1, 5} ::
      KpiGrid(data, prev, parse).value.rows[i].comparison == Dash
  {
  }

  /** The three comparing rows look up the same key in both records. */
  lemma KpiGridComparedRows(data: map<string, Value>, prev: map<string, Value>,
                            parse: string -> Option<real>)
    requires KpiGrid(data, prev, parse).Some?
    ensures HasKpiKeys(data)
    ensures var rows := KpiGrid(data, prev, parse).value.rows;
      rows[0].comparison == Compare(data["PhA"], prev, Some("PhA"), parse) &&
      rows[1].comparison == Compare(data["FM_perc"], prev, Some("FM_perc"), parse) &&
      rows[5].comparison == Compare(data["TBW_L"], prev, Some("TBW_L"), parse)
  {
    KpiGridDefined(data, prev, parse);
    KpiGridComparisons(data, prev, parse);
    assert KpiSpecs[0].key == "PhA" && KpiSpecs[0].previousKey == Some("PhA");
    assert KpiSpecs[1].key == "FM_perc" && KpiSpecs[1].previousKey == Some("FM_perc");
    assert KpiSpecs[5].key == "TBW_L" && KpiSpecs[5].previousKey == Some("TBW_L");
  }

  /** Without a previous record every row shows the dash and the header one
      blank cell; this is how the report is produced. */
  lemma KpiGridWithoutPrevious(data: map<string, Value>, parse: string -> Option<real>)
    requires KpiGrid(data, map[], parse).Some?
    ensures KpiGrid(data, map[], parse).value.header == WithoutPrevious
    ensures forall i | 0 <= i < |KpiSpecs| :: KpiGrid(data, map[], parse).value.rows[i].comparison == Dash
  {
    KpiGridComparisons(data, map[], parse);
  }

  /** Compared with itself, a record shows no change, in red. */
  lemma KpiGridAgainstItself(data: map<string, Value>, parse: string -> Option<real>)
    requires KpiGrid(data, data, parse).Some?
    ensures forall i | 0 <= i < |KpiSpecs| ::
      var c := KpiGrid(data, data, parse).value.rows[i].comparison;
      c.Compared? ==> c.delta == 0.0 && c.sign == [] && c.colour == Red
  {
    KpiGridComparisons(data, data, parse);
  }

  // ---------------------------------------------------------------------
  // The table as the report fills it

  /** The record the report receives: the engine's record with the report
      text added. */
  function ReportData(m: Calculations.Metrics, reportText: string): (d: map<string, Value>)
    ensures d.Keys == Calculations.AsRow(m).Keys + {"Report_Text"}
    ensures forall k | k in Calculations.AsRow(m) :: d[k] == Calculations.AsRow(m)[k]
  {
    Calculations.AsRow(m)["Report_Text" := Text(reportText)]
  }

  /** The degraded-input record has no muscle mass, so the table cannot be
      built from it. This is a fact about the table alone: in the app, a
      degraded record already fails earlier, when its muscle mass is shown
      on the data tab (modules/biva_app.py:192), before the report is
      reached. */
  lemma SentinelReportFails(reportText: string, prev: map<string, Value>, parse: string -> Option<real>)
    ensures KpiGrid(ReportData(Calculations.Sentinel, reportText), prev, parse).None?
  {
    var d := ReportData(Calculations.Sentinel, reportText);
    assert KpiSpecs[3].key == "SMM_kg";
    assert "SMM_kg" !in d;
  }

  /** A full record fills every row with its own values. */
  lemma FullRecordFillsTable(m: Calculations.Metrics, reportText: string, prev: map<string, Value>,
                             parse: string -> Option<real>)
    requires m.Full?
    ensures KpiGrid(ReportData(m, reportText), prev, parse).Some?
    ensures var rows := KpiGrid(ReportData(m, reportText), prev, parse).value.rows;
      rows[0].current == Num(m.pha) && rows[1].current == Num(m.fmPerc) &&
      rows[2].current == Num(m.ffmKg) && rows[3].current == Num(m.smmKg) &&
      rows[4].current == Num(m.bcmKg) && rows[5].current == Num(m.tbwL) &&
      rows[6].current == Num(m.ecwL)
  {
    var d := ReportData(m, reportText);
    assert HasKpiKeys(d) && d["PhA"] == Num(m.pha) && d["FM_perc"] == Num(m.fmPerc) &&
      d["FFM_kg"] == Num(m.ffmKg) && d["SMM_kg"] == Num(m.smmKg) && d["BCM_kg"] == Num(m.bcmKg) &&
      d["TBW_L"] == Num(m.tbwL) && d["ECW_L"] == Num(m.ecwL) by {
      Calculations.FullRecordValues(m);
    }
    KpiGridDefined(d, prev, parse);
    KpiGridCurrent(d, prev, parse);
  }

  /** A row of the patient history used as the previous record: its keys
      are the history's column labels, which never include the body-fat or
      total-water keys of the table nor its date key. Those rows then show
      the dash, and the header shows no date. */
  lemma HistoryRowAsPrevious(hs: seq<string>, data: map<string, Value>, prev: map<string, Value>,
                             parse: string -> Option<real>)
    requires forall j | 0 <= j < |hs| :: forall i | 0 <= i < |hs[j]| :: !IsAsciiUpper(hs[j][i])
    requires forall k | k in prev :: k in Storage.StandardColumns(hs)
    requires KpiGrid(data, prev, parse).Some?
    ensures KpiGrid(data, prev, parse).value.rows[1].comparison == Dash
    ensures KpiGrid(data, prev, parse).value.rows[5].comparison == Dash
    ensures |prev| > 0 ==> KpiGrid(data, prev, parse).value.header == WithPrevious(NoDate)
  {
    HistoryKeysAbsent(hs, prev);
    KpiGridComparedRows(data, prev, parse);
  }

  /** A record keyed by history columns has no body-fat, total-water or
      date key of the table. */
  lemma HistoryKeysAbsent(hs: seq<string>, prev: map<string, Value>)
    requires forall j | 0 <= j < |hs| :: forall i | 0 <= i < |hs[j]| :: !IsAsciiUpper(hs[j][i])
    requires forall k | k in prev :: k in Storage.StandardColumns(hs)
    ensures "FM_perc" !in prev && "TBW_L" !in prev && DateKey !in prev
  {
    NotHistoryKey(hs, "FM_perc");
    NotHistoryKey(hs, "TBW_L");
    NotHistoryKey(hs, DateKey);
  }

  /** A key that starts with a capital letter and is no standard name is no
      history column. */
  lemma NotHistoryKey(hs: seq<string>, key: string)
    requires forall j | 0 <= j < |hs| :: forall i | 0 <= i < |hs[j]| :: !IsAsciiUpper(hs[j][i])
    requires |key| > 0 && IsAsciiUpper(key[0])
    requires key != "PhA" && key != "FM%" && key != "TBW" && key != "Peso" && key != "Data"
    ensures key !in Storage.StandardColumns(hs)
  {
    var cols := Storage.StandardColumns(hs);
    Storage.StandardColumnsLabels(hs);
    forall j | 0 <= j < |cols|
      ensures cols[j] != key
    {
      if cols[j] != hs[j] {
        Storage.StandardNameList(cols[j]);
      }
    }
  }
}
